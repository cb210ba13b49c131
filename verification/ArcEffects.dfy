/** What each operation of the replacer does, in plain numbers and lists, and what its ghost lists and its counter
    mean over any run of operations. */
module ArcEffects {
  import opened Common
  import opened Arc

  // ------------------------------------------------------------------ accesses

  /** How far the target moves. On a hit in the MRU ghosts it goes up by one if they are no fewer than the MFU
      ghosts and that leaves it below the capacity; otherwise by as many times as the MFU ghosts outnumber them,
      if that is within the capacity. On a hit in the MFU ghosts it goes down by one if they are no fewer and that
      leaves it above zero; otherwise by as many times as they are outnumbered, if it is large enough. No other
      access moves it. */
  lemma TargetMoves(a: Arc, e: Entry)
    requires ArcOk(a) && Record(a, e).Done?
    ensures var t, m, f := Record(a, e).value.target, |a.mruGhost|, |a.mfuGhost|;
            && (e in Residents(a) ==> t == a.target)
            && (e !in Residents(a) && e.page in a.mruGhost ==>
                  t == if m >= f && a.target + 1 < a.cap then a.target + 1
                       else if a.target + f / m % 0x1_0000_0000 <= a.cap then a.target + f / m % 0x1_0000_0000
                       else a.target)
            && (e !in Residents(a) && e.page in a.mfuGhost ==>
                  t == if f >= m && a.target > 1 then a.target - 1
                       else if a.target >= m / f % 0x1_0000_0000 then a.target - m / f % 0x1_0000_0000
                       else a.target)
            && (e !in Residents(a) && e.page !in a.mruGhost && e.page !in a.mfuGhost ==> t == a.target)
  {
    assert e in Residents(a) <==> e in a.mru || e in a.mfu;
  }

  /** Which accesses of a page that is not resident fail. A hit in the MFU ghosts fails exactly if they are no
      fewer than the MRU ghosts and the target is zero. With up to 2^30 frames no other access does. */
  lemma AccessPanics(a: Arc, e: Entry)
    requires ArcOk(a) && Admissible(a, e) && e !in Residents(a)
    ensures e.page in a.mfuGhost ==> (Record(a, e).Panic? <==> |a.mfuGhost| >= |a.mruGhost| && a.target == 0)
    ensures e.page in a.mruGhost && a.cap <= 0x4000_0000 ==> Record(a, e).Done?
    ensures e.page !in a.mfuGhost && e.page !in a.mruGhost ==> Record(a, e).Done?
  {
    RecordMiss(a, e);
    if e.page in a.mruGhost && a.cap <= 0x4000_0000 {
      RaiseSucceeds(a);
    }
  }

  /** What an access does to the lists: a ghost that is hit leaves its list, and a list at its bound loses its
      last ghost. */
  lemma AccessMoves(a: Arc, e: Entry)
    requires ArcOk(a) && Admissible(a, e) && Record(a, e).Done?
    ensures var r := Record(a, e).value;
            && r.currSize == a.currSize && r.evictable == a.evictable && r.cap == a.cap
            && IsPart(a.mruGhost, r.mruGhost) && IsPart(a.mfuGhost, r.mfuGhost)
            && (e in Residents(a) ==> r.mruGhost == a.mruGhost && r.mfuGhost == a.mfuGhost)
            && (e !in Residents(a) && e.page in a.mruGhost ==> r.mfuGhost == a.mfuGhost)
            && (e !in Residents(a) && e.page in a.mfuGhost ==> r.mruGhost == a.mruGhost)
  {
    GhostHits(a, e.page);
    AllButIsPart(a.mruGhost, e.page);
    AllButIsPart(a.mfuGhost, e.page);
  }

  /** `r` is `s` with some elements left out. */
  ghost predicate IsPart<T>(s: seq<T>, r: seq<T>) {
    || s == r
    || (s != [] && (r == s[..|s| - 1] || exists i {:trigger RemoveAt(s, i)} :: 0 <= i < |s| && r == RemoveAt(s, i)))
  }

  lemma AllButIsPart(s: seq<PageId>, x: PageId)
    requires NoDuplicates(s)
    ensures IsPart(s, AllBut(s, x))
  {
    if x in s {
      var i :| 0 <= i < |s| && s[i] == x;
      AllButOne(s, x, i);
    } else {
      AllButAbsent(s, x);
    }
  }

  // ------------------------------------------------------------------ marks and evictions

  /** The victim is on one list only. */
  lemma VictimList(a: Arc)
    requires OnePlace(a) && !Victim(a).NoPick?
    ensures VictimEntry(a) in a.mru <==> Victim(a).FromMru?
    ensures VictimEntry(a) in a.mfu <==> Victim(a).FromMfu?
  {
    assert !Apart(VictimEntry(a), VictimEntry(a));
  }

  /** An eviction puts the victim's page in front of the ghosts of the list it was on, and does nothing to the other
      ghosts, to the other list, or to the target. */
  lemma EvictMoves(a: Arc)
    requires ArcOk(a) && !Victim(a).NoPick? && a.currSize > 0
    ensures var e, r := VictimEntry(a), Evicted(a);
            && r.target == a.target && r.cap == a.cap && r.currSize == a.currSize - 1 && r.clock == a.clock
            && (e in a.mru ==> r.mruGhost == [e.page] + a.mruGhost && r.mfuGhost == a.mfuGhost && r.mfu == a.mfu)
            && (e in a.mfu ==> r.mfuGhost == [e.page] + a.mfuGhost && r.mruGhost == a.mruGhost && r.mru == a.mru)
  {
    VictimList(a);
  }

  lemma MarkMoves(a: Arc, f: FrameId)
    ensures var r := Mark(a, f);
            && r.evictable == a.evictable + {f} && r.currSize == a.currSize + 1
            && r.(evictable := a.evictable, currSize := a.currSize) == a
  {
  }

  // ------------------------------------------------------------------ runs of operations

  datatype Op = Access(entry: Entry) | SetMark(frame: FrameId) | Evict

  /** Accesses the pool may report, marks of residents, and evictions that find a victim. */
  ghost predicate Takes(a: Arc, op: Op, r: Arc) {
    match op
    case Access(e) => Admissible(a, e) && Record(a, e) == Done(r)
    case SetMark(f) => ResidentFrame(a, f) && r == Mark(a, f)
    case Evict => !Victim(a).NoPick? && a.currSize > 0 && r == Evicted(a)
  }

  ghost predicate TakesAt(states: seq<Arc>, ops: seq<Op>, i: nat)
    requires i < |ops| < |states|
  {
    Takes(states[i], ops[i], states[i + 1])
  }

  /** A run of a new replacer. */
  ghost predicate Run(cap: nat, states: seq<Arc>, ops: seq<Op>) {
    && |states| == |ops| + 1 && states[0] == NewArc(cap)
    && forall i {:trigger TakesAt(states, ops, i)} :: 0 <= i < |ops| ==> TakesAt(states, ops, i)
  }

  lemma TakesKeeps(a: Arc, op: Op, r: Arc)
    requires ArcOk(a) && Takes(a, op, r)
    ensures ArcOk(r)
  {
    match op
    case Access(e) => RecordKeeps(a, e);
    case SetMark(f) => MarkKeeps(a, f);
    case Evict =>
      VictimExists(a);
      EvictKeeps(a);
  }

  lemma {:induction false} RunOk(cap: nat, states: seq<Arc>, ops: seq<Op>, n: nat)
    requires Run(cap, states, ops) && n <= |ops|
    ensures ArcOk(states[n])
    decreases n
  {
    if n > 0 {
      RunOk(cap, states, ops, n - 1);
      assert TakesAt(states, ops, n - 1);
      TakesKeeps(states[n - 1], ops[n - 1], states[n]);
    }
  }

  /** When each page was last evicted, in the first `n` operations. */
  ghost function EvictedAt(states: seq<Arc>, ops: seq<Op>, n: nat): (m: map<PageId, nat>)
    requires n <= |ops| < |states|
    decreases n
  {
    if n == 0 then map[]
    else
      var m := EvictedAt(states, ops, n - 1);
      if ops[n - 1].Evict? && !Victim(states[n - 1]).NoPick? then m[VictimEntry(states[n - 1]).page := n - 1] else m
  }

  /** The ghosts were all evicted, the later the further in front, and from the list the predicate names. */
  ghost predicate NewestFirst(ghosts: seq<PageId>, at: map<PageId, nat>, n: nat) {
    && (forall p :: p in ghosts ==> p in at && at[p] < n)
    && forall i, j :: 0 <= i < j < |ghosts| ==> at[ghosts[i]] > at[ghosts[j]]
  }

  /** The last eviction of each of the ghosts was from the MRU list, or from the MFU list. */
  ghost predicate LastFrom(ghosts: seq<PageId>, at: map<PageId, nat>, states: seq<Arc>, fromMru: bool) {
    forall p :: p in ghosts ==>
                  && p in at && at[p] < |states| && !Victim(states[at[p]]).NoPick? && VictimEntry(states[at[p]]).page == p
                  && (Victim(states[at[p]]).FromMru? <==> fromMru)
  }

  lemma PartKeeps(s: seq<PageId>, r: seq<PageId>, at: map<PageId, nat>, n: nat, states: seq<Arc>, fromMru: bool)
    requires IsPart(s, r) && NewestFirst(s, at, n) && LastFrom(s, at, states, fromMru)
    ensures NewestFirst(r, at, n + 1) && LastFrom(r, at, states, fromMru)
  {
    assert forall p :: p in r ==> p in s;
  }

  lemma PushKeeps(s: seq<PageId>, p: PageId, at: map<PageId, nat>, n: nat, states: seq<Arc>, fromMru: bool)
    requires p !in s && NewestFirst(s, at, n) && LastFrom(s, at, states, fromMru)
    requires n < |states| && !Victim(states[n]).NoPick? && VictimEntry(states[n]).page == p && (Victim(states[n]).FromMru? <==> fromMru)
    ensures NewestFirst([p] + s, at[p := n], n + 1) && LastFrom([p] + s, at[p := n], states, fromMru)
  {
  }

  lemma OthersKeep(s: seq<PageId>, p: PageId, at: map<PageId, nat>, n: nat, states: seq<Arc>, fromMru: bool)
    requires p !in s && NewestFirst(s, at, n) && LastFrom(s, at, states, fromMru)
    ensures NewestFirst(s, at[p := n], n + 1) && LastFrom(s, at[p := n], states, fromMru)
  {
  }

  ghost predicate GhostsTell(a: Arc, at: map<PageId, nat>, n: nat, states: seq<Arc>) {
    && NewestFirst(a.mruGhost, at, n) && LastFrom(a.mruGhost, at, states, true)
    && NewestFirst(a.mfuGhost, at, n) && LastFrom(a.mfuGhost, at, states, false)
  }

  lemma GhostsAfterEvict(a: Arc, at: map<PageId, nat>, n: nat, states: seq<Arc>)
    requires ArcOk(a) && !Victim(a).NoPick? && a.currSize > 0 && n < |states| && states[n] == a && GhostsTell(a, at, n, states)
    ensures GhostsTell(Evicted(a), at[VictimEntry(a).page := n], n + 1, states)
  {
    EvictMoves(a);
    VictimList(a);
    var p := VictimEntry(a).page;
    assert VictimEntry(a) in Residents(a);
    if Victim(a).FromMru? {
      PushKeeps(a.mruGhost, p, at, n, states, true);
      OthersKeep(a.mfuGhost, p, at, n, states, false);
    } else {
      PushKeeps(a.mfuGhost, p, at, n, states, false);
      OthersKeep(a.mruGhost, p, at, n, states, true);
    }
  }

  lemma GhostsAfterAccess(a: Arc, e: Entry, at: map<PageId, nat>, n: nat, states: seq<Arc>)
    requires ArcOk(a) && Admissible(a, e) && Record(a, e).Done? && GhostsTell(a, at, n, states)
    ensures GhostsTell(Record(a, e).value, at, n + 1, states)
  {
    AccessMoves(a, e);
    PartKeeps(a.mruGhost, Record(a, e).value.mruGhost, at, n, states, true);
    PartKeeps(a.mfuGhost, Record(a, e).value.mfuGhost, at, n, states, false);
  }

  lemma GhostsStep(cap: nat, states: seq<Arc>, ops: seq<Op>, n: nat)
    requires Run(cap, states, ops) && n < |ops|
    requires GhostsTell(states[n], EvictedAt(states, ops, n), n, states)
    ensures GhostsTell(states[n + 1], EvictedAt(states, ops, n + 1), n + 1, states)
  {
    var a, at := states[n], EvictedAt(states, ops, n);
    RunOk(cap, states, ops, n);
    assert TakesAt(states, ops, n);
    match ops[n]
    case Access(e) => GhostsAfterAccess(a, e, at, n, states);
    case SetMark(f) => MarkMoves(a, f);
    case Evict => GhostsAfterEvict(a, at, n, states);
  }

  /** Over every run, the ghosts of a list are pages whose last eviction was from that list, and they are ordered
      by it: so the one forgotten first was evicted longest ago. */
  lemma {:induction false} GhostsTellAlways(cap: nat, states: seq<Arc>, ops: seq<Op>, n: nat)
    requires Run(cap, states, ops) && n <= |ops|
    ensures GhostsTell(states[n], EvictedAt(states, ops, n), n, states)
    decreases n
  {
    if n > 0 {
      GhostsTellAlways(cap, states, ops, n - 1);
      GhostsStep(cap, states, ops, n - 1);
    }
  }

  ghost function Count(ops: seq<Op>, n: nat): (c: int)
    requires n <= |ops|
    decreases n
  {
    if n == 0 then 0
    else Count(ops, n - 1) + match ops[n - 1] case Access(_) => 0 case SetMark(_) => 1 case Evict => -1
  }

  /** The size counter is the number of marks set, repeated ones too, less the number of evictions. */
  lemma {:induction false} SizeCounts(cap: nat, states: seq<Arc>, ops: seq<Op>, n: nat)
    requires Run(cap, states, ops) && n <= |ops|
    ensures states[n].currSize == Count(ops, n)
    decreases n
  {
    if n > 0 {
      var a := states[n - 1];
      SizeCounts(cap, states, ops, n - 1);
      RunOk(cap, states, ops, n - 1);
      assert TakesAt(states, ops, n - 1);
      match ops[n - 1]
      case Access(e) => AccessMoves(a, e);
      case SetMark(f) => MarkMoves(a, f);
      case Evict => EvictMoves(a);
    }
  }

  /** A ghost forgotten though its page was not accessed was, of its list, evicted longest ago. */
  lemma ForgottenIsOldest(cap: nat, states: seq<Arc>, ops: seq<Op>, n: nat, e: Entry, p: PageId, q: PageId)
    requires Run(cap, states, ops) && n < |ops| && ops[n] == Access(e) && p != e.page && p != q
    ensures var at := EvictedAt(states, ops, n);
            && (p in states[n].mruGhost && p !in states[n + 1].mruGhost && q in states[n].mruGhost ==>
                  p in at && q in at && at[p] < at[q])
            && (p in states[n].mfuGhost && p !in states[n + 1].mfuGhost && q in states[n].mfuGhost ==>
                  p in at && q in at && at[p] < at[q])
  {
    RunOk(cap, states, ops, n);
    GhostsTellAlways(cap, states, ops, n);
    assert TakesAt(states, ops, n);
    RecordForgets(states[n], e, p);
  }
}
