/** Whatever its clients do, the pool only does to its replacer what the replacer is made for: so what holds of every
    run of the replacer holds in the pool. */
module PoolReplacer {
  import opened Common
  import opened Arc
  import opened Pool
  import opened PoolPins
  import opened PoolRuns
  import R = ArcEffects

  /** A run of a new replacer that ends with `a`. */
  ghost predicate Leads(cap: nat, arcs: seq<Arc>, ops: seq<R.Op>, a: Arc) {
    R.Run(cap, arcs, ops) && arcs[|ops|] == a
  }

  lemma More(cap: nat, arcs: seq<Arc>, ops: seq<R.Op>, a: Arc, op: R.Op, r: Arc) returns (arcs': seq<Arc>, ops': seq<R.Op>)
    requires Leads(cap, arcs, ops, a) && R.Takes(a, op, r)
    ensures Leads(cap, arcs', ops', r)
  {
    arcs', ops' := arcs + [r], ops + [op];
    forall i: nat | i < |ops'|
      ensures R.TakesAt(arcs', ops', i)
    {
      assert i < |ops| ==> R.TakesAt(arcs, ops, i);
    }
  }

  lemma HitLeads(cap: nat, arcs: seq<Arc>, ops: seq<R.Op>, s: Pool, p: PageId) returns (arcs': seq<Arc>, ops': seq<R.Op>)
    requires Sound(s) && p in s.table && Leads(cap, arcs, ops, s.arc)
    ensures s.table[p] < |s.frames| && Pin(s, p, s.table[p]).Done? && Leads(cap, arcs', ops', Pin(s, p, s.table[p]).value.arc)
  {
    var e := Entry(s.table[p], p);
    PinSound(s, p);
    assert e in Residents(s.arc);
    arcs', ops' := More(cap, arcs, ops, s.arc, R.Access(e), Pin(s, p, e.frame).value.arc);
  }

  lemma LoadLeads(cap: nat, arcs: seq<Arc>, ops: seq<R.Op>, s: Pool, p: PageId) returns (arcs': seq<Arc>, ops': seq<R.Op>)
    requires Sound(s) && p in s.disk && p !in s.table && s.free != [] && LoadAndPin(s, p).Done? && Leads(cap, arcs, ops, s.arc)
    ensures Leads(cap, arcs', ops', LoadAndPin(s, p).value.arc)
  {
    var e := Entry(s.free[|s.free| - 1], p);
    TableLoad(|s.frames|, s.free, s.table, p);
    ArcLoad(|s.frames|, s.table, s.arc, e);
    arcs', ops' := More(cap, arcs, ops, s.arc, R.Access(e), LoadAndPin(s, p).value.arc);
  }

  lemma FetchLeads(cap: nat, arcs: seq<Arc>, ops: seq<R.Op>, s: Pool, p: PageId) returns (arcs': seq<Arc>, ops': seq<R.Op>)
    requires Sound(s) && p in s.disk && Fetch(s, p).Done? && Leads(cap, arcs, ops, s.arc)
    ensures Leads(cap, arcs', ops', Fetch(s, p).value.arc)
  {
    if p in s.table {
      arcs', ops' := HitLeads(cap, arcs, ops, s, p);
    } else if s.free != [] {
      arcs', ops' := LoadLeads(cap, arcs, ops, s, p);
    } else {
      EvictPanics(s);
      var t := EvictRoom(s, p);
      arcs', ops' := More(cap, arcs, ops, s.arc, R.Evict, t.arc);
      arcs', ops' := LoadLeads(cap, arcs', ops', t, p);
    }
  }

  lemma UnpinLeads(cap: nat, arcs: seq<Arc>, ops: seq<R.Op>, s: Pool, e: Entry) returns (arcs': seq<Arc>, ops': seq<R.Op>)
    requires Sound(s) && e.frame < |s.frames| && e.frame !in s.free && Leads(cap, arcs, ops, s.arc)
    ensures Leads(cap, arcs', ops', Unpin(s, e).arc)
  {
    arcs', ops' := arcs, ops;
    if Down(s.frames[e.frame].pin) == 0 {
      FrameResident(s, e.frame);
      arcs', ops' := More(cap, arcs, ops, s.arc, R.SetMark(e.frame), Mark(s.arc, e.frame));
    }
  }

  lemma FrameResident(s: Pool, f: FrameId)
    requires Sound(s) && f < |s.frames| && f !in s.free
    ensures ResidentFrame(s.arc, f)
  {
    assert Occupied(s.table, f);
    var q :| Holds(s.table, q, f);
    assert Entry(f, q) in Residents(s.arc);
  }

  lemma FlushPageLeads(cap: nat, arcs: seq<Arc>, ops: seq<R.Op>, s: Pool, p: PageId) returns (arcs': seq<Arc>, ops': seq<R.Op>)
    requires Agreed(s) && |s.guards| < USIZE_MAX && Leads(cap, arcs, ops, s.arc)
    ensures FlushPage(s, p).Done? && Leads(cap, arcs', ops', FlushPage(s, p).value.arc)
  {
    arcs', ops' := arcs, ops;
    if p in s.table {
      var e, t := FlushPageIs(s, p);
      arcs', ops' := HitLeads(cap, arcs, ops, s, p);
      FlushAgrees(t, e);
      arcs', ops' := UnpinLeads(cap, arcs', ops', Flush(t, e), e);
    }
  }

  lemma {:induction false} FlushAllLeads(cap: nat, arcs: seq<Arc>, ops: seq<R.Op>, s: Pool, order: seq<PageId>)
    returns (arcs': seq<Arc>, ops': seq<R.Op>)
    requires Agreed(s) && |s.guards| < USIZE_MAX && Leads(cap, arcs, ops, s.arc)
    ensures FlushAll(s, order).Done? && Leads(cap, arcs', ops', FlushAll(s, order).value.arc)
    decreases order
  {
    arcs', ops' := arcs, ops;
    if order != [] {
      arcs', ops' := FlushPageLeads(cap, arcs, ops, s, order[0]);
      FlushPageAgrees(s, order[0]);
      arcs', ops' := FlushAllLeads(cap, arcs', ops', FlushPage(s, order[0]).value, order[1..]);
    }
  }

  /** Every step of the pool is some admissible operations of its replacer. */
  lemma ApplyLeads(cap: nat, arcs: seq<Arc>, ops: seq<R.Op>, s: Pool, x: Step) returns (arcs': seq<Arc>, ops': seq<R.Op>)
    requires Agreed(s) && Enabled(s, x) && Apply(s, x).Done? && Leads(cap, arcs, ops, s.arc)
    ensures Leads(cap, arcs', ops', Apply(s, x).value.arc)
  {
    match x
    case Acquire(p) => arcs', ops' := FetchLeads(cap, arcs, ops, s, p);
    case Release(e) => arcs', ops' := UnpinLeads(cap, arcs, ops, s, e);
    case FlushOne(p) => arcs', ops' := FlushPageLeads(cap, arcs, ops, s, p);
    case FlushEvery(order) => arcs', ops' := FlushAllLeads(cap, arcs, ops, s, order);
    case _ => arcs', ops' := arcs, ops;
  }

  /** At every moment of every run of a new pool its replacer is where a run of a new replacer leads. */
  lemma {:induction false} ReplacerRun(numFrames: nat, states: seq<Pool>, xs: seq<Step>, n: nat) returns (arcs: seq<Arc>, ops: seq<R.Op>)
    requires RunOfPool(numFrames, states, xs) && n <= |xs|
    ensures Leads(numFrames, arcs, ops, states[n].arc)
    decreases n
  {
    if n == 0 {
      arcs, ops := [NewArc(numFrames)], [];
    } else {
      arcs, ops := ReplacerRun(numFrames, states, xs, n - 1);
      arcs, ops := StepLeads(numFrames, arcs, ops, states, xs, n - 1);
    }
  }

  lemma StepLeads(numFrames: nat, arcs: seq<Arc>, ops: seq<R.Op>, states: seq<Pool>, xs: seq<Step>, n: nat)
    returns (arcs': seq<Arc>, ops': seq<R.Op>)
    requires RunOfPool(numFrames, states, xs) && n < |xs| && Leads(numFrames, arcs, ops, states[n].arc)
    ensures Leads(numFrames, arcs', ops', states[n + 1].arc)
  {
    NewPoolAgreesAlways(numFrames, states, xs, n);
    assert StepTaken(states, xs, n);
    arcs', ops' := ApplyLeads(numFrames, arcs, ops, states[n], xs[n]);
  }

  /** So in the pool too, ghosts tell which list each page was last evicted from, and in which order; and the size
      counter counts marks less evictions. */
  lemma GhostsTellInPool(numFrames: nat, states: seq<Pool>, xs: seq<Step>, n: nat) returns (arcs: seq<Arc>, ops: seq<R.Op>)
    requires RunOfPool(numFrames, states, xs) && n <= |xs|
    ensures Leads(numFrames, arcs, ops, states[n].arc)
    ensures R.GhostsTell(states[n].arc, R.EvictedAt(arcs, ops, |ops|), |ops|, arcs) && states[n].arc.currSize == R.Count(ops, |ops|)
  {
    arcs, ops := ReplacerRun(numFrames, states, xs, n);
    R.GhostsTellAlways(numFrames, arcs, ops, |ops|);
    R.SizeCounts(numFrames, arcs, ops, |ops|);
  }
}
