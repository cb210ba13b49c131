/** How far the pool is a plain map from pages to bytes: exactly when a step is its effect on the map, and
    over which runs. */
module PoolRefinement {
  import opened Common
  import opened Arc
  import opened Pool
  import opened PoolPins
  import opened PoolRuns

  /** The specification: pages handed out in order of their ids, each with its last bytes. */
  datatype Memory = Memory(next: nat, pages: Store)

  ghost function Seen(s: Pool): (m: Memory) {
    Memory(s.next, View(s))
  }

  ghost function Effect(m: Memory, x: Step): (r: Memory) {
    match x
    case Allocate => if m.next < U32_LIMIT then Memory(m.next + 1, m.pages[m.next := ZeroPage()]) else m
    case Write(e, data) => m.(pages := m.pages[e.page := data])
    case _ => m
  }

  ghost function Effects(m: Memory, xs: seq<Step>): (r: Memory)
    decreases xs
  {
    if xs == [] then m else Effect(Effects(m, xs[..|xs| - 1]), xs[|xs| - 1])
  }

  /** A page that differs from `p`. */
  function OtherPage(p: Page): (r: Page)
    ensures r != p
  {
    var r := p[0 := if p[0] == 0 then 1 else 0];
    assert r[0] != p[0];
    r
  }

  lemma WriteView(s: Pool, e: Entry, data: Page)
    requires OneToOne(s.table) && Holds(s.table, e.page, e.frame) && e.frame < |s.frames| && e.page in s.disk
    ensures View(WriteThrough(s, e, data)) == View(s)[e.page := data]
  {
  }

  /** What a write through a stale guard does: it lands in the page that has the frame now. */
  lemma StaleWrite(s: Pool, e: Entry, data: Page) returns (q: PageId)
    requires Agreed(s) && e in s.guards && !Holds(s.table, e.page, e.frame)
    ensures Holds(s.table, q, e.frame) && q != e.page && q in s.disk && e.frame < |s.frames|
    ensures View(WriteThrough(s, e, data)) == View(s)[q := data]
  {
    assert Occupied(s.table, e.frame);
    q :| Holds(s.table, q, e.frame);
    WriteView(s, Entry(e.frame, q), data);
  }

  /** Exactly when a guard writes to its own page: while its page is still in its frame. */
  lemma WriteExactly(s: Pool, e: Entry)
    requires Agreed(s) && e in s.guards
    ensures e.frame < |s.frames|
    ensures Holds(s.table, e.page, e.frame) <==> forall data: Page :: View(WriteThrough(s, e, data)) == View(s)[e.page := data]
  {
    if Holds(s.table, e.page, e.frame) {
      forall data: Page
        ensures View(WriteThrough(s, e, data)) == View(s)[e.page := data]
      {
        WriteView(s, e, data);
      }
    } else {
      assert Occupied(s.table, e.frame);
      var p :| Holds(s.table, p, e.frame);
      var data := OtherPage(View(s)[p]);
      var q := StaleWrite(s, e, data);
      assert q == p;
      assert View(WriteThrough(s, e, data))[q] == data && View(s)[e.page := data][q] == View(s)[q];
    }
  }

  /** Flushing the guard writes nothing, or its page is in some frame, or the disk already has the bytes. */
  ghost predicate Harmless(s: Pool, e: Entry) {
    || e.page in s.table
    || (e.frame < |s.frames| && (!s.frames[e.frame].dirty || (e.page in s.disk && s.disk[e.page] == s.frames[e.frame].data)))
  }

  /** Exactly when flushing a guard changes no page's bytes. The flush of a stale guard writes the bytes of
      another page. */
  lemma FlushExactly(s: Pool, e: Entry)
    requires Agreed(s) && e in s.guards
    ensures e.frame < |s.frames| && e.page in s.disk
    ensures View(Flush(s, e)) == View(s) <==> Harmless(s, e)
  {
    var r := Flush(s, e);
    assert forall p :: p in s.table ==> p in s.disk && s.table[p] < |s.frames|;
    if Harmless(s, e) {
      FlushView(s, e);
    } else {
      assert View(r)[e.page] == s.frames[e.frame].data != View(s)[e.page];
    }
  }

  lemma FlushView(s: Pool, e: Entry)
    requires e.frame < |s.frames| && e.page in s.disk && forall p :: p in s.table ==> s.table[p] < |s.frames|
    requires Harmless(s, e)
    ensures View(Flush(s, e)) == View(s)
  {
    var r := Flush(s, e);
    assert r.disk.Keys == s.disk.Keys;
    forall p | p in s.disk
      ensures Bytes(r.frames, r.table, r.disk, p) == Bytes(s.frames, s.table, s.disk, p)
    {
    }
  }

  lemma FlushPageView(s: Pool, p: PageId)
    requires Agreed(s) && |s.guards| < USIZE_MAX
    ensures FlushPage(s, p).Done? && Agreed(FlushPage(s, p).value) && View(FlushPage(s, p).value) == View(s)
  {
    if p in s.table {
      var e, t := FlushPageIs(s, p);
      PinView(s, p, e.frame);
      FlushAgrees(t, e);
      FlushExactly(t, e);
      UnpinAgrees(Flush(t, e), e);
    }
  }

  lemma {:induction false} FlushAllView(s: Pool, order: seq<PageId>)
    requires Agreed(s) && |s.guards| < USIZE_MAX
    ensures FlushAll(s, order).Done? && View(FlushAll(s, order).value) == View(s)
    decreases order
  {
    if order != [] {
      FlushPageView(s, order[0]);
      FlushAllView(FlushPage(s, order[0]).value, order[1..]);
    }
  }

  /** A write of `data` through the guard goes to its own page, or finds `data` there and in the frame already. */
  ghost predicate Reaches(s: Pool, e: Entry, data: Page) {
    || Holds(s.table, e.page, e.frame)
    || (e.frame < |s.frames| && s.frames[e.frame].data == data && e.page in s.disk && View(s)[e.page] == data)
  }

  /** Exactly when writing `data` through a guard is writing it to the guard's page. */
  lemma WriteReaches(s: Pool, e: Entry, data: Page)
    requires Agreed(s) && e in s.guards
    ensures e.frame < |s.frames|
    ensures View(WriteThrough(s, e, data)) == View(s)[e.page := data] <==> Reaches(s, e, data)
  {
    if Holds(s.table, e.page, e.frame) {
      WriteView(s, e, data);
    } else {
      var q := StaleWrite(s, e, data);
      TwoUpdates(View(s), q, e.page, data);
    }
  }

  lemma TwoUpdates(m: Store, p: PageId, q: PageId, data: Page)
    requires p in m && q in m && p != q
    ensures m[p := data] == m[q := data] <==> m[p] == data && m[q] == data
  {
    if m[p := data] == m[q := data] {
      assert m[p := data][p] == m[q := data][p] && m[p := data][q] == m[q := data][q];
    }
  }

  /** The step does not reach another page through a stale guard. */
  ghost predicate Honest(s: Pool, x: Step) {
    && (x.Write? ==> Reaches(s, x.guard, x.data))
    && (x.FlushGuard? ==> Harmless(s, x.guard))
  }

  lemma FetchSeen(s: Pool, p: PageId)
    requires Sound(s) && p in s.disk && Fetch(s, p).Done?
    ensures Seen(Fetch(s, p).value) == Seen(s)
  {
    FetchView(s, p);
    FetchFrees(s, p);
  }

  /** Exactly when a step is its effect on a plain map: if it reaches no other page through a stale guard.
      Loads, evictions (of pinned frames too), releases and flushes of pages have none. */
  lemma ApplyRefines(s: Pool, x: Step)
    requires Agreed(s) && Enabled(s, x) && Apply(s, x).Done?
    ensures Seen(Apply(s, x).value) == Effect(Seen(s), x) <==> Honest(s, x)
  {
    match x
    case Allocate => NewPageSound(s);
    case Acquire(p) => FetchSeen(s, p);
    case Write(e, data) => WriteReaches(s, e, data);
    case FlushGuard(e) => FlushExactly(s, e);
    case Release(e) => UnpinAgrees(s, e);
    case FlushOne(p) => FlushPageView(s, p);
    case FlushEvery(order) => FlushAllView(s, order);
  }

  /** What the pool stands for. */
  ghost predicate Shows(s: Pool, m: Memory) {
    Seen(s) == m
  }

  ghost predicate HonestRun(states: seq<Pool>, xs: seq<Step>) {
    Run(states, xs) && forall i {:trigger Honest(states[i], xs[i])} :: 0 <= i < |xs| ==> Honest(states[i], xs[i])
  }

  lemma StepRefines(states: seq<Pool>, xs: seq<Step>, n: nat, m: Memory)
    requires HonestRun(states, xs) && Agreed(states[0]) && 0 < n <= |xs| && Shows(states[n - 1], m)
    ensures Shows(states[n], Effect(m, xs[n - 1]))
  {
    AgreedAlways(states, xs, n - 1);
    assert StepTaken(states, xs, n - 1) && Honest(states[n - 1], xs[n - 1]);
    ApplyRefines(states[n - 1], xs[n - 1]);
  }

  lemma EffectsSnoc(m: Memory, xs: seq<Step>, n: nat)
    requires 0 < n <= |xs|
    ensures Effects(m, xs[..n]) == Effect(Effects(m, xs[..n - 1]), xs[n - 1])
  {
    assert xs[..n][..n - 1] == xs[..n - 1];
  }

  /** Over every run that does not use stale guards to write or flush, the pool is a plain map from pages to
      bytes: every page reads as its last write, through whatever loads, evictions and flushes happened in
      between. Evicting pinned frames does no harm by itself. */
  lemma {:induction false} RunRefinesMap(states: seq<Pool>, xs: seq<Step>, n: nat)
    requires HonestRun(states, xs) && Agreed(states[0]) && n <= |xs|
    ensures Shows(states[n], Effects(Seen(states[0]), xs[..n]))
  {
    if n > 0 {
      RunRefinesMap(states, xs, n - 1);
      EffectsSnoc(Seen(states[0]), xs, n);
      StepRefines(states, xs, n, Effects(Seen(states[0]), xs[..n - 1]));
    }
  }

  /** After `n` steps the pool shows what the plain map then holds. */
  ghost predicate ShowsAfter(states: seq<Pool>, xs: seq<Step>, n: nat)
    requires n <= |xs| < |states|
  {
    Shows(states[n], Effects(Seen(states[0]), xs[..n]))
  }

  /** A step between two states that show what the plain map holds is honest. */
  lemma StepHonest(states: seq<Pool>, xs: seq<Step>, n: nat)
    requires Run(states, xs) && Agreed(states[0]) && n < |xs|
    requires ShowsAfter(states, xs, n) && ShowsAfter(states, xs, n + 1)
    ensures Honest(states[n], xs[n])
  {
    AgreedAlways(states, xs, n);
    EffectsSnoc(Seen(states[0]), xs, n + 1);
    assert StepTaken(states, xs, n);
    ApplyRefines(states[n], xs[n]);
  }

  /** Exactly the honest runs are runs of the plain map. */
  lemma RefinesExactly(states: seq<Pool>, xs: seq<Step>)
    requires Run(states, xs) && Agreed(states[0])
    ensures (forall n: nat :: n <= |xs| ==> ShowsAfter(states, xs, n)) <==> HonestRun(states, xs)
  {
    if HonestRun(states, xs) {
      forall n: nat | n <= |xs|
        ensures ShowsAfter(states, xs, n)
      {
        RunRefinesMap(states, xs, n);
      }
    }
    if forall n: nat :: n <= |xs| ==> ShowsAfter(states, xs, n) {
      forall i: nat | i < |xs|
        ensures Honest(states[i], xs[i])
      {
        assert ShowsAfter(states, xs, i) && ShowsAfter(states, xs, i + 1);
        StepHonest(states, xs, i);
      }
    }
  }

  // ------------------------------------------------------------------ what is on disk

  ghost predicate CleanPool(s: Pool) {
    Clean(s.frames, s.table, s.disk)
  }

  /** What a flush of a stale guard would have to find on disk: the page now in the frame with the frame's
      bytes; and these bytes in the frame of the guard's page too, if that frame is clean. */
  ghost predicate DiskHasIt(s: Pool, e: Entry)
    requires e.frame < |s.frames|
  {
    var data := s.frames[e.frame].data;
    && (forall q :: Holds(s.table, q, e.frame) && q in s.disk ==> s.disk[q] == data)
    && (e.page in s.table && s.table[e.page] < |s.frames| && !s.frames[s.table[e.page]].dirty ==>
          s.frames[s.table[e.page]].data == data)
  }

  /** Flushing the guard wipes no dirty flag of a page that is not on disk, and writes over no clean page. */
  ghost predicate KeepsClean(s: Pool, e: Entry) {
    || Holds(s.table, e.page, e.frame)
    || (e.frame < |s.frames| && (!s.frames[e.frame].dirty || DiskHasIt(s, e)))
  }

  ghost predicate Durable(s: Pool, x: Step) {
    x.FlushGuard? ==> KeepsClean(s, x.guard)
  }

  lemma StaleFlushClean(s: Pool, e: Entry)
    requires CleanPool(s) && OneToOne(s.table) && e.frame < |s.frames| && s.frames[e.frame].dirty
    requires !Holds(s.table, e.page, e.frame) && DiskHasIt(s, e)
    ensures CleanPool(Flush(s, e))
  {
    assert forall q :: q in s.table && s.table[q] == e.frame ==> Holds(s.table, q, e.frame) && q != e.page;
  }

  lemma StaleFlushDirty(s: Pool, e: Entry)
    requires DiskAgrees(s.table, s.next, s.disk) && e.page in s.disk && e.frame < |s.frames| && s.frames[e.frame].dirty
    requires !Holds(s.table, e.page, e.frame) && !DiskHasIt(s, e)
    ensures !CleanPool(Flush(s, e))
  {
    var r, data := Flush(s, e), s.frames[e.frame].data;
    if q :| Holds(s.table, q, e.frame) && q in s.disk && s.disk[q] != data {
      assert q in r.table && !r.frames[r.table[q]].dirty && r.disk[q] == s.disk[q];
    } else {
      assert e.page in r.table && r.disk[e.page] == data;
    }
  }

  /** Exactly when flushing a guard leaves clean frames equal to the disk. */
  lemma FlushCleanExactly(s: Pool, e: Entry)
    requires Agreed(s) && CleanPool(s) && e in s.guards
    ensures e.frame < |s.frames|
    ensures CleanPool(Flush(s, e)) <==> KeepsClean(s, e)
  {
    if s.frames[e.frame].dirty {
      if Holds(s.table, e.page, e.frame) {
        CleanFlush(s.frames, s.table, s.disk, e);
      } else if DiskHasIt(s, e) {
        StaleFlushClean(s, e);
      } else {
        StaleFlushDirty(s, e);
      }
    }
  }

  /** Flushing a resident page never fails and changes no page's bytes; afterwards the disk has that page
      as the pool shows it, even if `flush_page` found nothing to write. */
  lemma FlushPageKeeps(s: Pool, p: PageId)
    requires Agreed(s) && CleanPool(s) && p in s.table && |s.guards| < USIZE_MAX
    ensures FlushPage(s, p).Done? && View(FlushPage(s, p).value) == View(s)
    ensures CleanPool(FlushPage(s, p).value)
    ensures p in View(s) && FlushPage(s, p).value.disk == s.disk[p := View(s)[p]]
  {
    FlushPageView(s, p);
    var e, t := FlushPageIs(s, p);
    HitClean(s, p);
    FlushCleanExactly(t, e);
    var u := Flush(t, e);
    CleanPin(u.frames, u.table, u.disk, e.frame, Down(u.frames[e.frame].pin));
    FlushWrites(s, t, p, e);
  }

  /** `flush_page` writes nothing for a page in a clean frame. */
  lemma FlushPageIdle(s: Pool, p: PageId)
    requires Agreed(s) && p in s.table && s.table[p] < |s.frames| && !s.frames[s.table[p]].dirty && |s.guards| < USIZE_MAX
    ensures FlushPage(s, p).Done? && FlushPage(s, p).value.disk == s.disk
  {
    var e, t := FlushPageIs(s, p);
  }

  lemma FlushWrites(s: Pool, t: Pool, p: PageId, e: Entry)
    requires CleanPool(s) && p in s.table && p in s.disk
    requires e == Entry(s.table[p], p) && e.frame < |s.frames| && Pin(s, p, e.frame) == Done(t)
    ensures e.frame < |t.frames| && Flush(t, e).disk == s.disk[p := View(s)[p]]
  {
  }

  /** `after` is `before` with the listed pages brought to their bytes in `view`. */
  ghost predicate Flushed(before: Store, view: Store, pages: seq<PageId>, after: Store) {
    && before.Keys == after.Keys == view.Keys
    && forall p :: p in before ==> after[p] == if p in pages then view[p] else before[p]
  }

  lemma FlushedMore(before: Store, view: Store, pages: seq<PageId>, after: Store)
    requires pages != [] && pages[0] in view && pages[0] in before
    requires Flushed(before[pages[0] := view[pages[0]]], view, pages[1..], after)
    ensures Flushed(before, view, pages, after)
  {
  }

  /** `t` is `s` with the listed pages flushed. */
  ghost predicate FlushedTo(s: Pool, pages: seq<PageId>, t: Pool) {
    View(t) == View(s) && CleanPool(t) && Flushed(s.disk, View(s), pages, t.disk)
  }

  lemma FlushedStep(s: Pool, pages: seq<PageId>, t: Pool, u: Pool)
    requires pages != [] && pages[0] in s.disk
    requires View(t) == View(s) && t.disk == s.disk[pages[0] := View(s)[pages[0]]]
    requires FlushedTo(t, pages[1..], u)
    ensures FlushedTo(s, pages, u)
  {
    FlushedMore(s.disk, View(s), pages, u.disk);
  }

  lemma {:induction false} FlushAllKeeps(s: Pool, order: seq<PageId>) returns (r: Pool)
    requires Agreed(s) && CleanPool(s) && |s.guards| < USIZE_MAX && forall p :: p in order ==> p in s.table
    ensures FlushAll(s, order) == Done(r) && FlushedTo(s, order, r)
    decreases order
  {
    if order == [] {
      r := s;
    } else {
      FlushPageKeeps(s, order[0]);
      FlushPageAgrees(s, order[0]);
      var t := FlushPage(s, order[0]).value;
      r := FlushAllKeeps(t, order[1..]);
      FlushedStep(s, order, t, r);
    }
  }

  lemma FlushedEvery(before: Store, view: Store, pages: seq<PageId>, after: Store)
    requires Flushed(before, view, pages, after)
    requires forall p :: p in before && p !in pages ==> view[p] == before[p]
    ensures after == view
  {
  }

  /** After `flush_all_pages`, in whatever order it visits the table, the disk holds the last bytes written
      to every page. */
  lemma FlushedAll(s: Pool, order: seq<PageId>)
    requires Agreed(s) && CleanPool(s) && Enabled(s, FlushEvery(order))
    ensures FlushAll(s, order).Done? && View(FlushAll(s, order).value) == View(s)
    ensures FlushAll(s, order).value.disk == View(s)
  {
    var r := FlushAllKeeps(s, order);
    FlushedEvery(s.disk, View(s), order, r.disk);
  }

  /** Exactly when a step leaves clean frames equal to the disk. */
  lemma ApplyClean(s: Pool, x: Step)
    requires Agreed(s) && CleanPool(s) && Enabled(s, x) && Apply(s, x).Done?
    ensures CleanPool(Apply(s, x).value) <==> Durable(s, x)
  {
    match x
    case Allocate => assert s.next !in s.table;
    case Acquire(p) => FetchClean(s, p);
    case Write(e, data) => CleanWrite(s.frames, s.table, s.disk, e.frame, data);
    case FlushGuard(e) => FlushCleanExactly(s, e);
    case Release(e) => CleanPin(s.frames, s.table, s.disk, e.frame, Down(s.frames[e.frame].pin));
    case FlushOne(p) =>
      if p in s.table {
        FlushPageKeeps(s, p);
      }
    case FlushEvery(order) => var r := FlushAllKeeps(s, order);
  }

  ghost predicate DurableRun(states: seq<Pool>, xs: seq<Step>) {
    Run(states, xs) && forall i {:trigger Durable(states[i], xs[i])} :: 0 <= i < |xs| ==> Durable(states[i], xs[i])
  }

  lemma StepClean(states: seq<Pool>, xs: seq<Step>, n: nat)
    requires Run(states, xs) && Agreed(states[0]) && n < |xs| && CleanPool(states[n])
    ensures CleanPool(states[n + 1]) <==> Durable(states[n], xs[n])
  {
    AgreedAlways(states, xs, n);
    assert StepTaken(states, xs, n);
    ApplyClean(states[n], xs[n]);
  }

  lemma {:induction false} CleanAlways(states: seq<Pool>, xs: seq<Step>, n: nat)
    requires DurableRun(states, xs) && Agreed(states[0]) && CleanPool(states[0]) && n <= |xs|
    ensures CleanPool(states[n])
    decreases n
  {
    if n > 0 {
      CleanAlways(states, xs, n - 1);
      StepClean(states, xs, n - 1);
      assert Durable(states[n - 1], xs[n - 1]);
    }
  }

  /** Exactly over the runs whose flushes of guards are durable, clean resident frames are at every moment what
      the disk holds, so that flushing everything brings the disk to the bytes the pool shows. */
  lemma CleanExactly(states: seq<Pool>, xs: seq<Step>)
    requires Run(states, xs) && Agreed(states[0]) && CleanPool(states[0])
    ensures (forall n: nat :: n <= |xs| ==> CleanPool(states[n])) <==> DurableRun(states, xs)
  {
    if DurableRun(states, xs) {
      forall n: nat | n <= |xs|
        ensures CleanPool(states[n])
      {
        CleanAlways(states, xs, n);
      }
    }
    if forall n: nat :: n <= |xs| ==> CleanPool(states[n]) {
      forall i: nat | i < |xs|
        ensures Durable(states[i], xs[i])
      {
        assert CleanPool(states[i]) && CleanPool(states[i + 1]);
        StepClean(states, xs, i);
      }
    }
  }
}
