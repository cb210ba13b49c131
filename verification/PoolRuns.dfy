/** Runs of the buffer pool: what holds at every state of every run, and how far the pool is a plain map
    from pages to bytes. */
module PoolRuns {
  import opened Common
  import opened Arc
  import opened Pool
  import opened PoolPins

  // ------------------------------------------------------------------ steps

  datatype Step =
    | Allocate
    | Acquire(page: PageId)
    | Write(guard: Entry, data: Page)
    | FlushGuard(guard: Entry)
    | Release(guard: Entry)
    | FlushOne(page: PageId)
    | FlushEvery(order: seq<PageId>)

  /** What a client may do: allocate while ids last, ask for pages handed out, use guards that are alive. A
      guard holds a counted reference, and the count is checked long before `USIZE_MAX` guards. */
  ghost predicate Enabled(s: Pool, x: Step) {
    match x
    case Allocate => s.next < INVALID_PAGE_ID
    case Acquire(p) => p in s.disk && |s.guards| < USIZE_MAX
    case Write(e, _) => e in s.guards
    case FlushGuard(e) => e in s.guards
    case Release(e) => e in s.guards
    case FlushOne(_) => |s.guards| < USIZE_MAX
    case FlushEvery(order) => |s.guards| < USIZE_MAX && forall p :: p in order <==> p in s.table
  }

  ghost function Apply(s: Pool, x: Step): (r: Outcome<Pool>)
    requires Enabled(s, x)
  {
    match x
    case Allocate => Done(NewPage(s))
    case Acquire(p) => Fetch(s, p)
    case Write(e, data) => if e.frame < |s.frames| then Done(WriteThrough(s, e, data)) else Panic
    case FlushGuard(e) => if e.frame < |s.frames| then Done(Flush(s, e)) else Panic
    case Release(e) => if e.frame < |s.frames| then Done(Unpin(s, e)) else Panic
    case FlushOne(p) => FlushPage(s, p)
    case FlushEvery(order) => FlushAll(s, order)
  }

  ghost predicate Takes(s: Pool, x: Step, t: Pool) {
    Enabled(s, x) && Apply(s, x) == Done(t)
  }

  /** A run: the steps, and the states before, between and after them. */
  ghost predicate Run(states: seq<Pool>, xs: seq<Step>) {
    |states| == |xs| + 1 && forall i {:trigger StepTaken(states, xs, i)} :: 0 <= i < |xs| ==> StepTaken(states, xs, i)
  }

  ghost predicate StepTaken(states: seq<Pool>, xs: seq<Step>, i: nat)
    requires i < |xs| < |states|
  {
    Takes(states[i], xs[i], states[i + 1])
  }

  // ------------------------------------------------------------------ every run: agreement

  /** A new page has an id never used, and nothing else changes. */
  lemma NewPageSound(s: Pool)
    requires Sound(s) && s.next < INVALID_PAGE_ID
    ensures s.next !in View(s) && Sound(NewPage(s)) && View(NewPage(s)) == View(s)[s.next := ZeroPage()]
  {
    assert s.next !in s.table;
    NewPageView(s);
    DiskGrows(s.table, s.next, s.disk);
  }

  lemma DiskGrows(table: map<PageId, FrameId>, next: nat, disk: Store)
    requires DiskAgrees(table, next, disk) && next < INVALID_PAGE_ID
    ensures DiskAgrees(table, next + 1, disk[next := ZeroPage()])
  {
  }

  lemma NewPageView(s: Pool)
    requires s.next < INVALID_PAGE_ID && s.next !in s.table
    ensures View(NewPage(s)) == View(s)[s.next := ZeroPage()]
  {
  }

  lemma NewPageAgrees(s: Pool)
    requires Agreed(s) && s.next < INVALID_PAGE_ID
    ensures Agreed(NewPage(s))
  {
    NewPageSound(s);
  }

  lemma LoadFrees(s: Pool, p: PageId)
    requires s.free != [] && p in s.disk && LoadAndPin(s, p).Done?
    ensures var r := LoadAndPin(s, p).value;
            |r.frames| == |s.frames| && r.next == s.next && r.disk == s.disk && r.free == s.free[..|s.free| - 1]
  {
  }

  lemma EvictFrees(s: Pool)
    requires Sound(s) && s.free == [] && Evict(s).Done?
    ensures var t := Evict(s).value;
            |t.frames| == |s.frames| && t.next == s.next && t.disk.Keys == s.disk.Keys && |t.free| == 1
  {
    EvictPanics(s);
    EvictIs(s);
  }

  /** Making a guard frees no frame for good, and forgets no page. */
  lemma FetchFrees(s: Pool, p: PageId)
    requires Sound(s) && p in s.disk && Fetch(s, p).Done?
    ensures var r := Fetch(s, p).value;
            |r.frames| == |s.frames| && r.next == s.next && r.disk.Keys == s.disk.Keys && forall f :: f in r.free ==> f in s.free
  {
    if p !in s.table {
      if s.free != [] {
        LoadFrees(s, p);
        Popped(s.free);
      } else {
        EvictFrees(s);
        LoadFrees(Evict(s).value, p);
      }
    }
  }

  lemma FetchInPlay(s: Pool, p: PageId)
    requires Sound(s) && InPlay(|s.frames|, s.free, s.disk, s.guards) && p in s.disk && Fetch(s, p).Done?
    ensures var r := Fetch(s, p).value; InPlay(|r.frames|, r.free, r.disk, r.guards)
  {
    FetchSound(s, p);
    FetchView(s, p);
    FetchFrees(s, p);
  }

  lemma FetchAgrees(s: Pool, p: PageId)
    requires Agreed(s) && p in s.disk && |s.guards| < USIZE_MAX && Fetch(s, p).Done?
    ensures Agreed(Fetch(s, p).value)
  {
    FetchSound(s, p);
    FetchInPlay(s, p);
    FetchTended(s, p);
  }

  lemma PinAgrees(s: Pool, p: PageId)
    requires Agreed(s) && p in s.table && |s.guards| < USIZE_MAX
    ensures s.table[p] < |s.frames| && Pin(s, p, s.table[p]).Done? && Agreed(Pin(s, p, s.table[p]).value)
  {
    PinSound(s, p);
    HitTended(s, p);
  }

  /** The agreement of table, replacer and disk does not look into the frames. */
  lemma SameSound(s: Pool, r: Pool)
    requires Sound(s) && r.free == s.free && r.table == s.table && r.arc == s.arc && r.next == s.next
    requires |r.frames| == |s.frames| && r.disk.Keys == s.disk.Keys
    ensures Sound(r)
  {
  }

  /** Only the bytes and the dirty flag of a frame changed, and the bytes of a page on disk. */
  ghost predicate SameButBytes(s: Pool, r: Pool) {
    && r.free == s.free && r.table == s.table && r.arc == s.arc && r.next == s.next && r.guards == s.guards
    && |r.frames| == |s.frames| && r.disk.Keys == s.disk.Keys
    && forall f :: 0 <= f < |s.frames| ==> r.frames[f].pin == s.frames[f].pin
  }

  lemma SameAgreed(s: Pool, r: Pool)
    requires Agreed(s) && SameButBytes(s, r)
    ensures Agreed(r)
  {
    SameSound(s, r);
    TendedSame(s.frames, s.free, s.arc, s.guards, r.frames, s.free);
  }

  lemma WriteAgrees(s: Pool, e: Entry, data: Page)
    requires Agreed(s) && e in s.guards
    ensures e.frame < |s.frames| && Agreed(WriteThrough(s, e, data))
  {
    SameAgreed(s, WriteThrough(s, e, data));
  }

  lemma FlushBytes(s: Pool, e: Entry)
    requires e.frame < |s.frames| && e.page in s.disk
    ensures SameButBytes(s, Flush(s, e))
  {
  }

  lemma FlushAgrees(s: Pool, e: Entry)
    requires Agreed(s) && e in s.guards
    ensures e.frame < |s.frames| && Agreed(Flush(s, e))
  {
    FlushBytes(s, e);
    SameAgreed(s, Flush(s, e));
  }

  lemma UnpinSound(s: Pool, e: Entry)
    requires Sound(s) && e.frame < |s.frames| && e.frame !in s.free
    ensures Sound(Unpin(s, e)) && View(Unpin(s, e)) == View(s)
  {
    var q :| Holds(s.table, q, e.frame);
    assert Entry(e.frame, q) in Residents(s.arc);
    SameData(s, Unpin(s, e));
    MarkKeeps(s.arc, e.frame);
  }

  lemma UnpinAgrees(s: Pool, e: Entry)
    requires Agreed(s) && e in s.guards
    ensures e.frame < |s.frames| && Agreed(Unpin(s, e)) && View(Unpin(s, e)) == View(s)
  {
    UnpinSound(s, e);
    TendedUnpin(s.frames, s.free, s.arc, s.guards, e);
    assert forall g :: g in Unpin(s, e).guards ==> g in s.guards;
  }

  /** `flush_page` as its three parts: a guard made, flushed and dropped. */
  lemma FlushPageIs(s: Pool, p: PageId) returns (e: Entry, t: Pool)
    requires Agreed(s) && p in s.table && |s.guards| < USIZE_MAX
    ensures e == Entry(s.table[p], p) && e.frame < |s.frames| == |t.frames| && Pin(s, p, e.frame) == Done(t)
    ensures Agreed(t) && e in t.guards && t.table == s.table && t.disk == s.disk
    ensures FlushPage(s, p) == Done(Unpin(Flush(t, e), e))
  {
    e := Entry(s.table[p], p);
    PinAgrees(s, p);
    t := Pin(s, p, e.frame).value;
  }

  lemma FlushPageAgrees(s: Pool, p: PageId)
    requires Agreed(s) && |s.guards| < USIZE_MAX
    ensures FlushPage(s, p).Done? && Agreed(FlushPage(s, p).value)
  {
    if p in s.table {
      var e, t := FlushPageIs(s, p);
      FlushAgrees(t, e);
      UnpinAgrees(Flush(t, e), e);
    }
  }

  lemma {:induction false} FlushAllAgrees(s: Pool, order: seq<PageId>)
    requires Agreed(s) && |s.guards| < USIZE_MAX
    ensures FlushAll(s, order).Done? && Agreed(FlushAll(s, order).value)
    decreases order
  {
    if order != [] {
      FlushPageAgrees(s, order[0]);
      FlushAllAgrees(FlushPage(s, order[0]).value, order[1..]);
    }
  }

  /** Every step, whatever it evicts, keeps page table, free list, replacer, disk and marks in agreement. */
  lemma ApplyAgrees(s: Pool, x: Step)
    requires Agreed(s) && Enabled(s, x)
    ensures Apply(s, x).Panic? <==> x.Acquire? && Fails(s, x.page)
    ensures Apply(s, x).Panic? || Agreed(Apply(s, x).value)
  {
    match x
    case Allocate => NewPageAgrees(s);
    case Acquire(p) =>
      FetchSound(s, p);
      if Fetch(s, p).Done? {
        FetchAgrees(s, p);
      }
    case Write(e, data) => WriteAgrees(s, e, data);
    case FlushGuard(e) => FlushAgrees(s, e);
    case Release(e) => UnpinAgrees(s, e);
    case FlushOne(p) => FlushPageAgrees(s, p);
    case FlushEvery(order) => FlushAllAgrees(s, order);
  }

  lemma StepAgrees(states: seq<Pool>, xs: seq<Step>, n: nat)
    requires Run(states, xs) && 0 < n <= |xs| && Agreed(states[n - 1])
    ensures Agreed(states[n])
  {
    assert StepTaken(states, xs, n - 1);
    ApplyAgrees(states[n - 1], xs[n - 1]);
  }

  /** Over every run, whatever is evicted: free frames and page table partition the frames, the table is
      one-to-one, the replacer tracks exactly the resident pages within the bounds of ARC, and every
      resident frame without pins is evictable. */
  lemma {:induction false} AgreedAlways(states: seq<Pool>, xs: seq<Step>, n: nat)
    requires Run(states, xs) && Agreed(states[0]) && n <= |xs|
    ensures Agreed(states[n])
  {
    if n > 0 {
      AgreedAlways(states, xs, n - 1);
      StepAgrees(states, xs, n);
    }
  }

  lemma NewArcOk(cap: nat)
    ensures ArcOk(NewArc(cap)) && Residents(NewArc(cap)) == {}
  {
  }

  lemma NewPoolOk(numFrames: nat)
    requires numFrames <= U32_LIMIT
    ensures PoolOk(NewPool(numFrames)) && View(NewPool(numFrames)) == map[]
  {
    NewArcOk(numFrames);
    NewTableOk(numFrames);
    NothingHeld(NewPool(numFrames));
  }

  lemma NothingHeld(s: Pool)
    requires s.table == map[] && s.disk == map[] && s.guards == multiset{} && Residents(s.arc) == {} && s.arc.mru == []
    requires forall f :: 0 <= f < |s.frames| ==> s.frames[f].pin == 0
    ensures Exact(s) && View(s) == map[] && Tracks(s.table, Residents(s.arc))
    ensures InPlay(|s.frames|, s.free, s.disk, s.guards) && Tended(s.frames, s.free, s.arc, s.guards)
  {
  }

  lemma NewTableOk(n: nat)
    requires n <= U32_LIMIT
    ensures TableOk(n, AllFrames(n), map[])
  {
    forall f: FrameId | f < n
      ensures f in AllFrames(n)
    {
      assert AllFrames(n)[f] == f;
    }
  }

  /** A run that starts with a new pool. */
  ghost predicate RunOfPool(numFrames: nat, states: seq<Pool>, xs: seq<Step>) {
    numFrames <= U32_LIMIT && Run(states, xs) && states[0] == NewPool(numFrames)
  }

  lemma RunStarts(numFrames: nat)
    requires numFrames <= U32_LIMIT
    ensures RunOfPool(numFrames, [NewPool(numFrames)], [])
  {
  }

  lemma RunMore(numFrames: nat, states: seq<Pool>, xs: seq<Step>, x: Step, t: Pool)
    requires RunOfPool(numFrames, states, xs) && Takes(states[|xs|], x, t)
    ensures RunOfPool(numFrames, states + [t], xs + [x])
  {
    forall i: nat | i < |xs| + 1
      ensures StepTaken(states + [t], xs + [x], i)
    {
      assert i < |xs| ==> StepTaken(states, xs, i);
    }
  }

  /** So nothing a client does to a new pool brings its parts out of step. */
  lemma NewPoolAgreesAlways(numFrames: nat, states: seq<Pool>, xs: seq<Step>, n: nat)
    requires RunOfPool(numFrames, states, xs) && n <= |xs|
    ensures Agreed(states[n])
  {
    NewPoolOk(numFrames);
    AgreedAlways(states, xs, n);
  }

  // ------------------------------------------------------------------ every run: a victim for whoever needs one

  /** Over every run, whatever is evicted: a resident frame without pins is evictable. */
  lemma UnpinnedIsEvictable(numFrames: nat, states: seq<Pool>, xs: seq<Step>, n: nat, e: Entry)
    requires RunOfPool(numFrames, states, xs) && n <= |xs| && e in Residents(states[n].arc)
    ensures e.frame < |states[n].frames|
    ensures states[n].frames[e.frame].pin == 0 ==> e.frame in states[n].arc.evictable
  {
    NewPoolAgreesAlways(numFrames, states, xs, n);
    assert Holds(states[n].table, e.page, e.frame);
  }

  /** Over every run, whatever is evicted: if no frame is free and some frame has no pin, eviction finds a victim. */
  lemma FindsFrame(numFrames: nat, states: seq<Pool>, xs: seq<Step>, n: nat, f: FrameId)
    requires RunOfPool(numFrames, states, xs) && n <= |xs|
    requires states[n].free == [] && f < |states[n].frames| && states[n].frames[f].pin == 0
    ensures Evict(states[n]).Done?
  {
    NewPoolAgreesAlways(numFrames, states, xs, n);
    MarkedFrame(states[n], f);
    EvictPanics(states[n]);
  }

  lemma MarkedFrame(s: Pool, f: FrameId)
    requires Agreed(s) && f !in s.free && f < |s.frames| && s.frames[f].pin == 0
    ensures f in s.arc.evictable
  {
    assert Occupied(s.table, f);
    var p :| Holds(s.table, p, f);
    assert Entry(f, p) in Residents(s.arc);
  }
}
