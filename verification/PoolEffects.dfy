/** What each step of the pool does to pins, marks, dirty flags and the page table, in plain terms: over every run,
    whatever is evicted. */
module PoolEffects {
  import opened Common
  import opened Arc
  import ArcEffects
  import opened Pool
  import opened PoolPins
  import opened PoolRuns

  const PINS: int := 0x1_0000_0000_0000_0000

  /** Free frames are wiped, and pin counts fit into 64 bits. */
  ghost predicate Tidied(s: Pool) {
    && (forall f :: f in s.free && f < |s.frames| ==> s.frames[f] == Frame(0, false, ZeroPage()))
    && forall f: FrameId :: f < |s.frames| ==> s.frames[f].pin < PINS
  }

  /** At most frame `f` differs, and it is not free afterwards. */
  ghost predicate OneFrame(s: Pool, f: FrameId, t: Pool) {
    && f < |s.frames| == |t.frames| && (forall g :: g in t.free ==> g in s.free && g != f)
    && forall g :: 0 <= g < |s.frames| && g != f ==> t.frames[g] == s.frames[g]
  }

  lemma OneFrameTidied(s: Pool, f: FrameId, t: Pool)
    requires Tidied(s) && OneFrame(s, f, t) && t.frames[f].pin < PINS
    ensures Tidied(t)
  {
  }

  // ------------------------------------------------------------------ making a guard

  /** A guard is made on a page in frame `f`: on a hit the frame gets one pin more, else it has that one, is clean,
      and holds the page. */
  ghost predicate Guarded(s: Pool, p: PageId, f: FrameId, t: Pool) {
    && p in View(s) && Holds(t.table, p, f) && OneFrame(s, f, t)
    && t.frames[f] == if p in s.table then s.frames[f].(pin := (s.frames[f].pin + 1) % PINS) else Frame(1, false, View(s)[p])
  }

  /** The table gains the page, and loses the victim's if no frame was free. Only the victim loses its mark. */
  ghost predicate Exchanged(s: Pool, p: PageId, f: FrameId, t: Pool) {
    if p in s.table then
      t.table == s.table && t.free == s.free && t.disk == s.disk && t.arc.evictable == s.arc.evictable
    else if s.free != [] then
      && t.table == s.table[p := f] && s.free == t.free + [f] && t.disk == s.disk
      && t.arc.evictable == s.arc.evictable
    else
      && !Victim(s.arc).NoPick?
      && var e := VictimEntry(s.arc);
      && Holds(s.table, e.page, e.frame) && f == e.frame < |s.frames|
      && t.table == (s.table - {e.page})[p := f] && t.free == [] && t.disk == s.disk[e.page := s.frames[f].data]
      && t.arc.evictable == s.arc.evictable - {f}
  }

  lemma PinEffect(s: Pool, e: Entry, a: Arc)
    requires e.frame < |s.frames| && s.frames[e.frame].pin < PINS && e.frame !in s.free && e.page in s.disk
    requires Holds(s.table, e.page, e.frame) && a.evictable == s.arc.evictable
    ensures Guarded(s, e.page, e.frame, WithPin(s, e, a)) && Exchanged(s, e.page, e.frame, WithPin(s, e, a))
  {
    DownUp(s.frames[e.frame].pin);
  }

  lemma HitEffect(s: Pool, p: PageId)
    requires Sound(s) && Tidied(s) && p in s.table
    ensures s.table[p] < |s.frames| && Pin(s, p, s.table[p]).Done?
    ensures var t := Pin(s, p, s.table[p]).value; Guarded(s, p, s.table[p], t) && Exchanged(s, p, s.table[p], t)
  {
    var a := HitIs(s, p);
    PinEffect(s, Entry(s.table[p], p), a);
  }

  lemma LoadedEffect(s: Pool, p: PageId, a: Arc)
    requires s.free != [] && p in s.disk && p !in s.table && a.evictable == s.arc.evictable
    requires var f := s.free[|s.free| - 1];
             f < |s.frames| && f !in s.free[..|s.free| - 1] && s.frames[f] == Frame(0, false, ZeroPage())
    ensures var f := s.free[|s.free| - 1];
            var t := WithPin(Load(s, p), Entry(f, p), a);
            Guarded(s, p, f, t) && Exchanged(s, p, f, t)
  {
  }

  lemma LoadEffect(s: Pool, p: PageId) returns (f: FrameId)
    requires Sound(s) && Tidied(s) && p in s.disk && p !in s.table && s.free != [] && LoadAndPin(s, p).Done?
    ensures f == s.free[|s.free| - 1]
    ensures var t := LoadAndPin(s, p).value; Guarded(s, p, f, t) && Exchanged(s, p, f, t)
  {
    f := s.free[|s.free| - 1];
    var a := LoadIs(s, p);
    assert f in s.free;
    LoadedEffect(s, p, a);
  }

  lemma DroppedTidied(s: Pool, e: Entry)
    requires Tidied(s) && e.frame < |s.frames| && !Victim(s.arc).NoPick? && s.arc.currSize > 0
    ensures Tidied(Dropped(s, e))
  {
  }

  lemma EvictEffect(s: Pool, p: PageId) returns (t: Pool)
    requires Sound(s) && Tidied(s) && p in s.disk && p !in s.table && s.free == [] && Fetch(s, p).Done?
    ensures t.free != [] && p in t.disk && p !in t.table && Fetch(s, p) == LoadAndPin(t, p) && Sound(t) && Tidied(t)
    ensures !Victim(s.arc).NoPick? && s.arc.currSize > 0 && VictimFits(s) && t == Dropped(s, VictimEntry(s.arc))
  {
    t := EvictMakesRoom(s, p);
    EvictIs(s);
    DroppedTidied(s, VictimEntry(s.arc));
  }

  /** The page the table has in the victim's frame is the victim's page. */
  ghost predicate VictimFits(s: Pool)
    requires !Victim(s.arc).NoPick?
  {
    var e := VictimEntry(s.arc);
    Holds(s.table, e.page, e.frame) && e.frame < |s.frames|
  }

  lemma EvictThenLoad(s: Pool, p: PageId, t: Pool, f: FrameId, r: Pool)
    requires !Victim(s.arc).NoPick? && s.arc.currSize > 0 && s.free == [] && p !in s.table && p in s.disk
    requires VictimFits(s) && t == Dropped(s, VictimEntry(s.arc))
    requires f == VictimEntry(s.arc).frame && Evicted(s.arc).evictable == s.arc.evictable - {f}
    requires Guarded(t, p, f, r) && Exchanged(t, p, f, r)
    ensures Guarded(s, p, f, r) && Exchanged(s, p, f, r)
  {
    assert r.free + [f] == [f];
    assert View(t)[p] == s.disk[p] == View(s)[p];
  }

  /** Making a guard, in all: which frame it is in, and what else changed. */
  lemma FetchEffect(s: Pool, p: PageId) returns (f: FrameId)
    requires Sound(s) && Tidied(s) && p in s.disk && Fetch(s, p).Done?
    ensures Guarded(s, p, f, Fetch(s, p).value) && Exchanged(s, p, f, Fetch(s, p).value)
  {
    if p in s.table {
      HitEffect(s, p);
      f := s.table[p];
    } else if s.free != [] {
      f := LoadEffect(s, p);
    } else {
      var t := EvictEffect(s, p);
      f := LoadEffect(t, p);
      EvictThenLoad(s, p, t, f, LoadAndPin(t, p).value);
    }
  }

  // ------------------------------------------------------------------ which fetches fail

  /** The victim comes from the MRU list. */
  ghost predicate MruVictim(a: Arc) {
    Victim(a).FromMru?
  }

  /** With up to 2^30 frames, making a guard fails exactly if the page is not resident and there is no frame to take,
      or the page is remembered as an MFU ghost, these are no fewer than the MRU ghosts (with the victim among
      them), and the target is zero. */
  lemma FetchPanics(s: Pool, p: PageId)
    requires Sound(s) && p in s.disk && |s.frames| <= 0x4000_0000
    ensures Fetch(s, p).Panic? <==>
              && p !in s.table
              && ((s.free == [] && s.arc.evictable == {})
                  || (p in s.arc.mfuGhost && s.arc.target == 0 && MfuNoFewer(s)))
  {
    FetchSound(s, p);
    if p !in s.table {
      if s.free != [] {
        LoadPanics(s, p);
      } else {
        EvictPanics(s);
        if s.arc.evictable != {} {
          var t := EvictRoom(s, p);
          EvictIs(s);
          LoadPanics(t, p);
          VictimGhost(s.arc, p);
        }
      }
    }
  }

  /** The MFU ghosts are no fewer than the MRU ghosts when the access is recorded. */
  ghost predicate MfuNoFewer(s: Pool) {
    if s.free != [] then |s.arc.mfuGhost| >= |s.arc.mruGhost|
    else if MruVictim(s.arc) then |s.arc.mfuGhost| >= |s.arc.mruGhost| + 1
    else |s.arc.mfuGhost| + 1 >= |s.arc.mruGhost|
  }

  lemma LoadPanics(s: Pool, p: PageId)
    requires Sound(s) && p in s.disk && p !in s.table && s.free != [] && |s.frames| <= 0x4000_0000
    ensures s.free[|s.free| - 1] < |s.frames|
    ensures LoadAndPin(s, p).Panic? <==> p in s.arc.mfuGhost && s.arc.target == 0 && |s.arc.mfuGhost| >= |s.arc.mruGhost|
  {
    TableLoad(|s.frames|, s.free, s.table, p);
    var e := Entry(s.free[|s.free| - 1], p);
    ArcLoad(|s.frames|, s.table, s.arc, e);
    ArcEffects.AccessPanics(s.arc, e);
  }

  /** What an eviction does to the ghosts, as another page sees it. */
  lemma VictimGhost(a: Arc, p: PageId)
    requires ArcOk(a) && !Victim(a).NoPick? && a.currSize > 0 && VictimEntry(a).page != p
    ensures var r := Evicted(a);
            && (p in r.mfuGhost <==> p in a.mfuGhost) && r.target == a.target
            && (if Victim(a).FromMru? then |r.mruGhost| == |a.mruGhost| + 1 && |r.mfuGhost| == |a.mfuGhost|
                else |r.mruGhost| == |a.mruGhost| && |r.mfuGhost| == |a.mfuGhost| + 1)
  {
    ArcEffects.VictimList(a);
    ArcEffects.EvictMoves(a);
  }

  // ------------------------------------------------------------------ the other steps

  lemma DownUp(pin: nat)
    requires pin < PINS
    ensures Up(pin) == (pin + 1) % PINS && Down(pin) == (pin + PINS - 1) % PINS && Down(Up(pin)) == pin
  {
  }

  /** `t` is `s` with the dirty flags of the frames in `fs` cleared, and some bytes on disk. */
  ghost predicate Cleaned(s: Pool, fs: set<FrameId>, t: Pool) {
    && |t.frames| == |s.frames| && t.table == s.table && t.free == s.free && t.arc.evictable == s.arc.evictable
    && forall f: FrameId :: f < |s.frames| ==> t.frames[f] == s.frames[f].(dirty := s.frames[f].dirty && f !in fs)
  }

  lemma FlushCleans(s: Pool, e: Entry)
    requires e.frame < |s.frames|
    ensures Cleaned(s, {e.frame}, Flush(s, e))
  {
  }

  lemma UnpinnedAgain(s: Pool, t: Pool, e: Entry)
    requires e.frame < |s.frames| && OneFrame(s, e.frame, t) && t.free == s.free && t.table == s.table
    requires s.frames[e.frame].pin < PINS && t.frames[e.frame] == s.frames[e.frame].(pin := Up(s.frames[e.frame].pin))
    requires t.arc.evictable == s.arc.evictable && (s.frames[e.frame].pin == 0 ==> e.frame in s.arc.evictable)
    ensures Cleaned(s, {e.frame}, Unpin(Flush(t, e), e))
  {
    DownUp(s.frames[e.frame].pin);
  }

  /** `flush_page` marks no frame: one without pins was evictable already. */
  lemma FlushPageCleans(s: Pool, p: PageId)
    requires Agreed(s) && Tidied(s) && |s.guards| < USIZE_MAX && p in s.table
    ensures FlushPage(s, p).Done? && Cleaned(s, {s.table[p]}, FlushPage(s, p).value)
  {
    var e, t := FlushPageIs(s, p);
    HitEffect(s, p);
    DownUp(s.frames[e.frame].pin);
    UnpinnedMarked(s, e);
    UnpinnedAgain(s, t, e);
  }

  lemma UnpinnedMarked(s: Pool, e: Entry)
    requires Agreed(s) && Holds(s.table, e.page, e.frame) && e.frame < |s.frames|
    ensures s.frames[e.frame].pin == 0 ==> e.frame in s.arc.evictable
  {
    assert e in Residents(s.arc);
  }

  lemma CleanedTidied(s: Pool, fs: set<FrameId>, t: Pool)
    requires Tidied(s) && Cleaned(s, fs, t)
    ensures Tidied(t)
  {
  }

  /** The frame of a page, if it has one. */
  ghost function FrameOf(table: map<PageId, FrameId>, p: PageId): (fs: set<FrameId>) {
    if p in table then {table[p]} else {}
  }

  lemma FrameOfIs(table: map<PageId, FrameId>, p: PageId)
    ensures forall f: FrameId :: f in FrameOf(table, p) <==> Holds(table, p, f)
  {
  }

  lemma FlushPageStep(s: Pool, p: PageId) returns (t: Pool)
    requires Agreed(s) && Tidied(s) && |s.guards| < USIZE_MAX
    ensures FlushPage(s, p) == Done(t) && Agreed(t) && Tidied(t) && Cleaned(s, FrameOf(s.table, p), t)
  {
    FlushPageAgrees(s, p);
    t := FlushPage(s, p).value;
    if p in s.table {
      FlushPageCleans(s, p);
    }
    CleanedTidied(s, FrameOf(s.table, p), t);
  }

  /** The frames of the listed pages. */
  ghost function FramesOf(table: map<PageId, FrameId>, order: seq<PageId>): (fs: set<FrameId>) {
    set p | p in order && p in table :: table[p]
  }

  lemma FramesOfMore(table: map<PageId, FrameId>, order: seq<PageId>)
    requires order != []
    ensures FramesOf(table, order) == FrameOf(table, order[0]) + FramesOf(table, order[1..])
  {
    assert order == [order[0]] + order[1..];
  }

  lemma CleanedTwice(s: Pool, fs: set<FrameId>, t: Pool, gs: set<FrameId>, r: Pool)
    requires Cleaned(s, fs, t) && Cleaned(t, gs, r)
    ensures Cleaned(s, fs + gs, r)
  {
  }

  lemma {:induction false} FlushAllCleans(s: Pool, order: seq<PageId>) returns (r: Pool)
    requires Agreed(s) && Tidied(s) && |s.guards| < USIZE_MAX
    ensures FlushAll(s, order) == Done(r) && Cleaned(s, FramesOf(s.table, order), r)
    decreases order
  {
    if order == [] {
      r := s;
      assert FramesOf(s.table, order) == {};
    } else {
      var t := FlushPageStep(s, order[0]);
      r := FlushAllCleans(t, order[1..]);
      FramesOfMore(s.table, order);
      CleanedTwice(s, FrameOf(s.table, order[0]), t, FramesOf(s.table, order[1..]), r);
    }
  }

  // ------------------------------------------------------------------ every step

  /** Only making a guard adds a pin, in the frame of its page, which has that one pin if it was just loaded; only
      dropping a guard takes one away. */
  ghost predicate PinsAfter(s: Pool, x: Step, t: Pool) {
    && |t.frames| == |s.frames|
    && forall f: FrameId :: f < |s.frames| ==>
                              t.frames[f].pin == if x.Release? && f == x.guard.frame then (s.frames[f].pin + PINS - 1) % PINS
                                                 else if x.Acquire? && Holds(t.table, x.page, f) then
                                                   (if x.page in s.table then (s.frames[f].pin + 1) % PINS else 1)
                                                 else s.frames[f].pin
  }

  /** Exactly a write makes a frame dirty; it is clean again once its page is flushed, or another page is loaded. */
  ghost predicate DirtyAfter(s: Pool, x: Step, t: Pool) {
    && |t.frames| == |s.frames|
    && forall f: FrameId :: f < |s.frames| ==>
                              (t.frames[f].dirty <==> (x.Write? && f == x.guard.frame) || (s.frames[f].dirty && !CleansFrame(s, x, t, f)))
  }

  ghost predicate CleansFrame(s: Pool, x: Step, t: Pool, f: FrameId) {
    match x
    case Acquire(p) => p !in s.table && Holds(t.table, p, f)
    case FlushGuard(e) => f == e.frame
    case FlushOne(p) => Holds(s.table, p, f)
    case FlushEvery(_) => Occupied(s.table, f)
    case _ => false
  }

  /** Exactly dropping the guard that is a frame's last pin marks it; exactly being the victim takes a mark away. */
  ghost predicate MarksAfter(s: Pool, x: Step, t: Pool) {
    forall f: FrameId ::
      f in t.arc.evictable <==>
      || (x.Release? && f == x.guard.frame && f < |s.frames| && s.frames[f].pin == 1)
      || (f in s.arc.evictable && !TakesFrame(s, x, f))
  }

  /** The step evicts frame `f`. */
  ghost predicate TakesFrame(s: Pool, x: Step, f: FrameId) {
    x.Acquire? && x.page !in s.table && s.free == [] && !Victim(s.arc).NoPick? && VictimEntry(s.arc).frame == f
  }

  /** Only making a guard moves pages, and only a write, or a page loaded, changes the bytes of a frame. */
  ghost predicate PagesAfter(s: Pool, x: Step, t: Pool) {
    && |t.frames| == |s.frames|
    && (if x.Acquire? then x.page in t.table && Exchanged(s, x.page, t.table[x.page], t)
        else t.table == s.table && t.free == s.free)
    && forall f: FrameId :: f < |s.frames| ==>
                              t.frames[f].data == if x.Write? && f == x.guard.frame then x.data
                                                  else if x.Acquire? && x.page !in s.table && x.page in View(s) && Holds(t.table, x.page, f)
                                                  then View(s)[x.page]
                                                  else s.frames[f].data
  }

  ghost predicate After(s: Pool, x: Step, t: Pool) {
    PinsAfter(s, x, t) && DirtyAfter(s, x, t) && MarksAfter(s, x, t) && PagesAfter(s, x, t) && Tidied(t)
  }

  lemma GuardedAfter(s: Pool, p: PageId, f: FrameId, t: Pool)
    requires Tidied(s) && Guarded(s, p, f, t) && Exchanged(s, p, f, t)
    ensures PinsAfter(s, Acquire(p), t) && DirtyAfter(s, Acquire(p), t) && PagesAfter(s, Acquire(p), t) && Tidied(t)
  {
    OneFrameTidied(s, f, t);
  }

  lemma ExchangedAfter(s: Pool, p: PageId, f: FrameId, t: Pool)
    requires Exchanged(s, p, f, t)
    ensures MarksAfter(s, Acquire(p), t)
  {
  }

  lemma AcquireAfter(s: Pool, p: PageId)
    requires Agreed(s) && Tidied(s) && p in s.disk && Fetch(s, p).Done?
    ensures After(s, Acquire(p), Fetch(s, p).value)
  {
    var f := FetchEffect(s, p);
    GuardedAfter(s, p, f, Fetch(s, p).value);
    ExchangedAfter(s, p, f, Fetch(s, p).value);
  }

  lemma CleanedAfter(s: Pool, x: Step, fs: set<FrameId>, t: Pool)
    requires Tidied(s) && Cleaned(s, fs, t) && (x.FlushGuard? || x.FlushOne? || x.FlushEvery?)
    requires forall f: FrameId :: f in fs <==> CleansFrame(s, x, t, f)
    ensures After(s, x, t)
  {
    CleanedTidied(s, fs, t);
  }

  lemma UnpinAfter(s: Pool, e: Entry)
    requires Tidied(s) && e.frame < |s.frames| && e.frame !in s.free
    ensures After(s, Release(e), Unpin(s, e))
  {
    DownUp(s.frames[e.frame].pin);
    OneFrameTidied(s, e.frame, Unpin(s, e));
  }

  lemma WriteAfter(s: Pool, e: Entry, data: Page)
    requires Tidied(s) && e.frame < |s.frames| && e.frame !in s.free
    ensures After(s, Write(e, data), WriteThrough(s, e, data))
  {
    OneFrameTidied(s, e.frame, WriteThrough(s, e, data));
  }

  lemma FlushEveryAfter(s: Pool, order: seq<PageId>)
    requires Agreed(s) && Tidied(s) && Enabled(s, FlushEvery(order))
    ensures FlushAll(s, order).Done? && After(s, FlushEvery(order), FlushAll(s, order).value)
  {
    var t := FlushAllCleans(s, order);
    var fs := FramesOf(s.table, order);
    forall f: FrameId
      ensures f in fs <==> Occupied(s.table, f)
    {
      if Occupied(s.table, f) {
        var p :| Holds(s.table, p, f);
        assert p in order;
      }
      if f in fs {
        var p :| p in order && p in s.table && s.table[p] == f;
        assert Holds(s.table, p, f);
      }
    }
    CleanedAfter(s, FlushEvery(order), fs, t);
  }

  lemma FlushOneAfter(s: Pool, p: PageId)
    requires Agreed(s) && Tidied(s) && Enabled(s, FlushOne(p))
    ensures FlushPage(s, p).Done? && After(s, FlushOne(p), FlushPage(s, p).value)
  {
    var t := FlushPageStep(s, p);
    FrameOfIs(s.table, p);
    CleanedAfter(s, FlushOne(p), FrameOf(s.table, p), t);
  }

  /** What every step, whatever it evicts, does to pins, dirty flags and marks. */
  lemma ApplyAfter(s: Pool, x: Step)
    requires Agreed(s) && Tidied(s) && Enabled(s, x) && Apply(s, x).Done?
    ensures After(s, x, Apply(s, x).value)
  {
    match x
    case Allocate =>
    case Acquire(p) => AcquireAfter(s, p);
    case Write(e, data) => WriteAfter(s, e, data);
    case FlushGuard(e) =>
      FlushCleans(s, e);
      CleanedAfter(s, x, {e.frame}, Flush(s, e));
    case Release(e) => UnpinAfter(s, e);
    case FlushOne(p) => FlushOneAfter(s, p);
    case FlushEvery(order) => FlushEveryAfter(s, order);
  }

  // ------------------------------------------------------------------ runs

  lemma NewPoolTidied(numFrames: nat)
    requires numFrames <= U32_LIMIT
    ensures Tidied(NewPool(numFrames))
  {
  }

  lemma StepTidied(states: seq<Pool>, xs: seq<Step>, n: nat)
    requires Run(states, xs) && Agreed(states[0]) && n < |xs| && Tidied(states[n])
    ensures After(states[n], xs[n], states[n + 1])
  {
    AgreedAlways(states, xs, n);
    assert StepTaken(states, xs, n);
    ApplyAfter(states[n], xs[n]);
  }

  lemma {:induction false} TidiedAlways(states: seq<Pool>, xs: seq<Step>, n: nat)
    requires Run(states, xs) && Agreed(states[0]) && Tidied(states[0]) && n <= |xs|
    ensures Tidied(states[n])
    decreases n
  {
    if n > 0 {
      TidiedAlways(states, xs, n - 1);
      StepTidied(states, xs, n - 1);
    }
  }

  /** At every step of every run of a new pool. */
  lemma AfterAlways(numFrames: nat, states: seq<Pool>, xs: seq<Step>, n: nat)
    requires RunOfPool(numFrames, states, xs) && n < |xs|
    ensures After(states[n], xs[n], states[n + 1])
  {
    NewPoolOk(numFrames);
    NewPoolTidied(numFrames);
    TidiedAlways(states, xs, n);
    StepTidied(states, xs, n);
  }

  // ------------------------------------------------------------------ marked means unpinned since

  ghost predicate MarkedHeld(s: Pool) {
    forall f :: f in s.arc.evictable ==> f !in s.free
  }

  lemma MarkedNotFree(s: Pool)
    requires Sound(s)
    ensures MarkedHeld(s)
  {
    forall f | f in s.arc.evictable
      ensures f !in s.free
    {
      var g :| g in Residents(s.arc) && g.frame == f;
      assert Holds(s.table, g.page, f);
    }
  }

  lemma MarkedHeldAlways(numFrames: nat, states: seq<Pool>, xs: seq<Step>, n: nat)
    requires RunOfPool(numFrames, states, xs) && n <= |xs|
    ensures MarkedHeld(states[n])
  {
    NewPoolAgreesAlways(numFrames, states, xs, n);
    MarkedNotFree(states[n]);
  }

  /** A marked frame that is not evicted holds the page it held before the step. */
  lemma StillHeld(s: Pool, x: Step, t: Pool, e: Entry)
    requires PagesAfter(s, x, t) && MarkedHeld(s)
    requires Holds(t.table, e.page, e.frame) && e.frame in s.arc.evictable && !TakesFrame(s, x, e.frame)
    ensures Holds(s.table, e.page, e.frame)
  {
    if x.Acquire? && x.page !in s.table && s.free != [] {
      assert s.free[|s.free| - 1] == t.table[x.page];
    }
  }

  /** From moment `m` to moment `n` the page is in the frame. */
  ghost predicate HeldSince(states: seq<Pool>, m: nat, n: nat, e: Entry)
    requires n < |states|
  {
    forall k: nat :: m <= k <= n ==> Holds(states[k].table, e.page, e.frame)
  }

  ghost predicate Unpinned(s: Pool, f: FrameId) {
    f < |s.frames| && s.frames[f].pin == 0
  }

  /** Over every run, whatever is evicted: a marked frame has had no pin at some moment since its page came into
      it. So a frame is up for eviction only once every guard made on it so far had been dropped. */
  lemma {:induction false} MarkedWasUnpinned(numFrames: nat, states: seq<Pool>, xs: seq<Step>, n: nat, e: Entry) returns (m: nat)
    requires RunOfPool(numFrames, states, xs) && n <= |xs|
    requires Holds(states[n].table, e.page, e.frame) && e.frame in states[n].arc.evictable
    ensures m <= n && HeldSince(states, m, n, e) && Unpinned(states[m], e.frame)
    decreases n
  {
    if n == 0 {
      assert false;
    } else {
      m := MarkedEarlier(numFrames, states, xs, n, e);
      if m < n {
        m := MarkedWasUnpinned(numFrames, states, xs, n - 1, e);
      }
    }
  }

  /** The mark was there before, or is set in this step, by dropping the last pin. */
  lemma MarkedStep(s: Pool, x: Step, t: Pool, e: Entry)
    requires PinsAfter(s, x, t) && MarksAfter(s, x, t) && PagesAfter(s, x, t) && MarkedHeld(s)
    requires Holds(t.table, e.page, e.frame) && e.frame in t.arc.evictable
    ensures Unpinned(t, e.frame) || (Holds(s.table, e.page, e.frame) && e.frame in s.arc.evictable)
  {
    if e.frame in s.arc.evictable && !TakesFrame(s, x, e.frame) {
      StillHeld(s, x, t, e);
    }
  }

  lemma MarkedEarlier(numFrames: nat, states: seq<Pool>, xs: seq<Step>, n: nat, e: Entry) returns (m: nat)
    requires RunOfPool(numFrames, states, xs) && 0 < n <= |xs|
    requires Holds(states[n].table, e.page, e.frame) && e.frame in states[n].arc.evictable
    ensures m == n ==> Unpinned(states[n], e.frame)
    ensures m != n ==> m < n && Holds(states[n - 1].table, e.page, e.frame) && e.frame in states[n - 1].arc.evictable
  {
    AfterAlways(numFrames, states, xs, n - 1);
    MarkedHeldAlways(numFrames, states, xs, n - 1);
    MarkedStep(states[n - 1], xs[n - 1], states[n], e);
    m := if Unpinned(states[n], e.frame) then n else n - 1;
  }
}
