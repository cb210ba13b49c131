/** Runs that evict no pinned frame: pin counts count guards, no guard is ever stale, and so the pool is a
    plain map whatever its clients do. */
module PoolCareful {
  import opened Common
  import opened Arc
  import opened Pool
  import opened PoolPins
  import opened PoolRuns
  import opened PoolRefinement
  import opened PoolMarks

  /** The step evicts no pinned frame. */
  ghost predicate Careful(s: Pool, x: Step) {
    x.Acquire? && x.page !in s.table && s.free == [] ==> VictimUnpinned(s)
  }

  ghost predicate AllCounted(s: Pool) {
    Counted(s.frames, s.table, s.guards, s.arc)
  }

  lemma UnpinCounted(s: Pool, e: Entry)
    requires Agreed(s) && AllCounted(s) && e in s.guards
    ensures e.frame < |s.frames| && AllCounted(Unpin(s, e))
  {
    GuardShows(s, e);
    PinnedLess(s.frames, s.table, s.guards, e);
    MruUnpin(s.frames, s.arc, e);
  }

  lemma SamePinsCounted(s: Pool, r: Pool)
    requires AllCounted(s) && r.table == s.table && r.guards == s.guards && r.arc == s.arc && |r.frames| == |s.frames|
    requires forall f :: 0 <= f < |s.frames| ==> r.frames[f].pin == s.frames[f].pin
    ensures AllCounted(r)
  {
    PinnedSame(s.frames, s.table, s.guards, r.frames);
    MruSame(s.frames, s.arc, r.frames);
  }

  lemma FlushCounted(s: Pool, e: Entry)
    requires AllCounted(s) && e.frame < |s.frames|
    ensures AllCounted(Flush(s, e))
  {
    SamePinsCounted(s, Flush(s, e));
  }

  lemma WriteCounted(s: Pool, e: Entry, data: Page)
    requires AllCounted(s) && e.frame < |s.frames|
    ensures AllCounted(WriteThrough(s, e, data))
  {
    SamePinsCounted(s, WriteThrough(s, e, data));
  }

  lemma FlushPageCounted(s: Pool, p: PageId)
    requires Agreed(s) && AllCounted(s) && |s.guards| < USIZE_MAX
    ensures FlushPage(s, p).Done? && AllCounted(FlushPage(s, p).value)
  {
    if p in s.table {
      var e, t := FlushPageIs(s, p);
      HitCounted(s, p);
      FlushAgrees(t, e);
      FlushCounted(t, e);
      UnpinCounted(Flush(t, e), e);
    }
  }

  lemma {:induction false} FlushAllCounted(s: Pool, order: seq<PageId>) returns (r: Pool)
    requires Agreed(s) && AllCounted(s) && |s.guards| < USIZE_MAX
    ensures FlushAll(s, order) == Done(r) && AllCounted(r)
    decreases order
  {
    if order == [] {
      r := s;
    } else {
      FlushPageCounted(s, order[0]);
      FlushPageAgrees(s, order[0]);
      r := FlushAllCounted(FlushPage(s, order[0]).value, order[1..]);
    }
  }

  ghost predicate NoneStale(s: Pool) {
    forall e :: e in s.guards ==> Holds(s.table, e.page, e.frame)
  }

  /** Exactly when making a guard leaves another one stale: when it evicts a pinned frame. */
  lemma StaleExactly(s: Pool, p: PageId)
    requires Agreed(s) && AllCounted(s) && Enabled(s, Acquire(p)) && Fetch(s, p).Done?
    ensures NoneStale(Fetch(s, p).value) <==> Careful(s, Acquire(p))
  {
    if Careful(s, Acquire(p)) {
      FetchCounted(s, p);
    } else {
      PinnedLost(s, p);
    }
  }

  lemma PinnedLost(s: Pool, p: PageId)
    requires Agreed(s) && AllCounted(s) && Enabled(s, Acquire(p)) && Fetch(s, p).Done? && !Careful(s, Acquire(p))
    ensures !NoneStale(Fetch(s, p).value)
  {
    EvictPanics(s);
    EvictIs(s);
    FetchView(s, p);
    var e, r := VictimEntry(s.arc), Fetch(s, p).value;
    VictimGuarded(s, e);
    FetchTable(s, p);
    assert e in r.guards && !Holds(r.table, e.page, e.frame);
  }

  lemma VictimGuarded(s: Pool, e: Entry)
    requires AllCounted(s) && Holds(s.table, e.page, e.frame) && e.frame < |s.frames| && s.frames[e.frame].pin != 0
    ensures e in s.guards
  {
  }

  lemma FetchTable(s: Pool, p: PageId)
    requires Sound(s) && p in s.disk && p !in s.table && s.free == [] && s.arc.evictable != {} && Fetch(s, p).Done?
    ensures !Victim(s.arc).NoPick? && s.arc.currSize > 0
    ensures var e := VictimEntry(s.arc); e.page in s.table && e.page !in Fetch(s, p).value.table
  {
    EvictIs(s);
    LoadTable(Evict(s).value, p);
  }

  lemma LoadTable(s: Pool, p: PageId)
    requires s.free != [] && p in s.disk && LoadAndPin(s, p).Done?
    ensures LoadAndPin(s, p).value.table.Keys == s.table.Keys + {p}
  {
  }

  lemma FetchCountedExactly(s: Pool, p: PageId)
    requires Agreed(s) && AllCounted(s) && Enabled(s, Acquire(p)) && Fetch(s, p).Done?
    ensures AllCounted(Fetch(s, p).value) <==> Careful(s, Acquire(p))
  {
    if Careful(s, Acquire(p)) {
      FetchCounted(s, p);
    } else {
      PinnedLost(s, p);
      assert AllCounted(Fetch(s, p).value) ==> NoneStale(Fetch(s, p).value);
    }
  }

  /** Exactly when a step keeps pins counting guards: if it evicts no pinned frame. */
  lemma ApplyCounted(s: Pool, x: Step)
    requires Agreed(s) && AllCounted(s) && Enabled(s, x) && Apply(s, x).Done?
    ensures AllCounted(Apply(s, x).value) <==> Careful(s, x)
  {
    match x
    case Allocate =>
    case Acquire(p) => FetchCountedExactly(s, p);
    case Write(e, data) => WriteCounted(s, e, data);
    case FlushGuard(e) => FlushCounted(s, e);
    case Release(e) => UnpinCounted(s, e);
    case FlushOne(p) => FlushPageCounted(s, p);
    case FlushEvery(order) => var r := FlushAllCounted(s, order);
  }

  ghost predicate CarefulRun(states: seq<Pool>, xs: seq<Step>) {
    Run(states, xs) && forall i {:trigger Careful(states[i], xs[i])} :: 0 <= i < |xs| ==> Careful(states[i], xs[i])
  }

  lemma StepCounted(s: Pool, x: Step, t: Pool)
    requires Agreed(s) && AllCounted(s) && Takes(s, x, t)
    ensures AllCounted(t) <==> Careful(s, x)
  {
    ApplyCounted(s, x);
  }

  /** A pool with exact pins. */
  type CountedPool = s: Pool | AllCounted(s) ghost witness (NewPoolOk(0); NewPool(0))

  /** A pool in order. */
  type AgreedPool = s: Pool | Agreed(s) ghost witness (NewPoolOk(0); NewPool(0))

  lemma KeptCounted(s: AgreedPool, c: CountedPool, x: Step, t: Pool) returns (d: CountedPool)
    requires s == c && Takes(c, x, t) && Careful(c, x)
    ensures d == t
  {
    StepCounted(c, x, t);
    d := t;
  }

  lemma AgreedAt(first: AgreedPool, states: seq<Pool>, xs: seq<Step>, n: nat) returns (s: AgreedPool)
    requires Run(states, xs) && first == states[0] && n <= |xs|
    ensures s == states[n]
  {
    AgreedAlways(states, xs, n);
    s := states[n];
  }

  lemma NextCounted(first: AgreedPool, states: seq<Pool>, xs: seq<Step>, n: nat, c: CountedPool) returns (d: CountedPool)
    requires CarefulRun(states, xs) && first == states[0] && 0 < n <= |xs| && c == states[n - 1]
    ensures d == states[n]
  {
    var s := AgreedAt(first, states, xs, n - 1);
    assert StepTaken(states, xs, n - 1) && Careful(states[n - 1], xs[n - 1]);
    d := KeptCounted(s, c, xs[n - 1], states[n]);
  }

  /** Over every run that evicts no pinned frame, pin counts count the guards alive, every guard is on its
      page, and on the MRU list evictable means unpinned. */
  lemma {:induction false} CountedAlways(first: AgreedPool, start: CountedPool, states: seq<Pool>, xs: seq<Step>, n: nat)
    returns (c: CountedPool)
    requires CarefulRun(states, xs) && first == start == states[0] && n <= |xs|
    ensures c == states[n]
    decreases n
  {
    if n == 0 {
      c := start;
    } else {
      var b := CountedAlways(first, start, states, xs, n - 1);
      c := NextCounted(first, states, xs, n, b);
    }
  }

  lemma StepCareful(states: seq<Pool>, xs: seq<Step>, n: nat)
    requires Run(states, xs) && Agreed(states[0]) && n < |xs| && AllCounted(states[n]) && AllCounted(states[n + 1])
    ensures Careful(states[n], xs[n])
  {
    AgreedAlways(states, xs, n);
    assert StepTaken(states, xs, n);
    StepCounted(states[n], xs[n], states[n + 1]);
  }

  /** Exactly over the runs that evict no pinned frame, pins count guards at every moment. */
  lemma CountedExactly(states: seq<Pool>, xs: seq<Step>)
    requires Run(states, xs) && Agreed(states[0]) && AllCounted(states[0])
    ensures (forall n: nat :: n <= |xs| ==> AllCounted(states[n])) <==> CarefulRun(states, xs)
  {
    if CarefulRun(states, xs) {
      forall n: nat | n <= |xs|
        ensures AllCounted(states[n])
      {
        var c := CountedAlways(states[0], states[0], states, xs, n);
      }
    }
    if forall n: nat :: n <= |xs| ==> AllCounted(states[n]) {
      forall i: nat | i < |xs|
        ensures Careful(states[i], xs[i])
      {
        assert AllCounted(states[i]) && AllCounted(states[i + 1]);
        StepCareful(states, xs, i);
      }
    }
  }

  /** Where every guard is on its page, every step is honest and durable. */
  lemma CountedIsHonest(s: Pool, x: Step)
    requires Agreed(s) && AllCounted(s) && Enabled(s, x)
    ensures Honest(s, x) && Durable(s, x)
  {
    if x.Write? || x.FlushGuard? {
      GuardShows(s, x.guard);
    }
  }

  lemma CarefulRunIsHonest(states: seq<Pool>, xs: seq<Step>)
    requires CarefulRun(states, xs) && Agreed(states[0]) && AllCounted(states[0])
    ensures HonestRun(states, xs) && DurableRun(states, xs)
  {
    forall i: nat | i < |xs|
      ensures Honest(states[i], xs[i]) && Durable(states[i], xs[i])
    {
      AgreedAlways(states, xs, i);
      var c := CountedAlways(states[0], states[0], states, xs, i);
      assert StepTaken(states, xs, i);
      CountedIsHonest(states[i], xs[i]);
    }
  }

  /** Over every run of a new pool that evicts no pinned frame, every page reads as its last write, a clean
      frame is what the disk holds, and pins count guards: the hypothesis is about evictions alone. */
  lemma CacheRefinesMap(numFrames: nat, states: seq<Pool>, xs: seq<Step>, n: nat)
    requires RunOfPool(numFrames, states, xs) && CarefulRun(states, xs) && n <= |xs|
    ensures Shows(states[n], Effects(Memory(0, map[]), xs[..n]))
    ensures CleanPool(states[n]) && AllCounted(states[n])
  {
    NewPoolOk(numFrames);
    CarefulRunIsHonest(states, xs);
    RunRefinesMap(states, xs, n);
    CleanAlways(states, xs, n);
    var c := CountedAlways(states[0], states[0], states, xs, n);
  }

  /** Where pins count guards, no guard is dropped on a frame without pins. */
  lemma CarefulRunIsTidy(states: seq<Pool>, xs: seq<Step>)
    requires CarefulRun(states, xs) && Agreed(states[0]) && AllCounted(states[0])
    ensures TidyRun(states, xs)
  {
    forall i: nat | i < |xs|
      ensures Tidy(states[i], xs[i])
    {
      AgreedAlways(states, xs, i);
      var c := CountedAlways(states[0], states[0], states, xs, i);
      assert StepTaken(states, xs, i);
      if xs[i].Release? {
        GuardShows(c, xs[i].guard);
      }
    }
  }
}
