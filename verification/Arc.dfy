/** The ARC replacement policy as a function of its state: what each operation does, and what it keeps. */
module Arc {
  import opened Common

  /** A page resident in a frame. */
  datatype Entry = Entry(frame: FrameId, page: PageId)

  /** The replacer. Lists have their most recent element in front. `stamp` is the time of the last
      access of each resident entry, read from a clock that ticks at every access. */
  datatype Arc = Arc(
    mru: seq<Entry>, mfu: seq<Entry>, mruGhost: seq<PageId>, mfuGhost: seq<PageId>,
    stamp: map<Entry, nat>, clock: nat, target: nat, cap: nat, currSize: nat, evictable: set<FrameId>)

  function NewArc(cap: nat): (a: Arc) {
    Arc([], [], [], [], map[], 0, 0, cap, 0, {})
  }

  /** `retain` of everything but `x`. */
  function AllBut<T(==)>(s: seq<T>, x: T): (r: seq<T>) {
    if s == [] then [] else if s[0] == x then AllBut(s[1..], x) else [s[0]] + AllBut(s[1..], x)
  }

  function PopBack<T>(s: seq<T>): (r: seq<T>) {
    if s == [] then [] else s[..|s| - 1]
  }

  /** The target after a hit among `m` MRU ghosts, with `f` MFU ghosts; the quotient is cut to 32 bits. */
  function RaisedTarget(target: nat, m: nat, f: nat, cap: nat): (t: nat)
    requires m > 0
    ensures target <= cap ==> target <= t <= cap
  {
    if m >= f && target + 1 < cap then target + 1
    else
      var increase := f / m % U32_LIMIT;
      if target + increase <= cap then target + increase else target
  }

  /** Where that arithmetic fails: a size that does not fit into 32 bits, or a target that would not. */
  predicate RaiseFails(target: nat, m: nat, f: nat, cap: nat)
    requires m > 0
  {
    || cap >= U32_LIMIT
    || (m >= f && target + 1 >= U32_LIMIT)
    || (!(m >= f && target + 1 < cap) && target + f / m % U32_LIMIT >= U32_LIMIT)
  }

  /** `mru_target_size - 1` on an unsigned zero. */
  predicate TargetUnderflows(a: Arc) {
    |a.mfuGhost| >= |a.mruGhost| && a.target == 0
  }

  /** The target after a hit among `f` MFU ghosts, with `m` MRU ghosts. */
  function LoweredTarget(target: nat, m: nat, f: nat): (t: nat)
    requires f > 0 && (f >= m ==> target > 0)
    ensures t <= target
  {
    if f >= m && target - 1 > 0 then target - 1
    else
      var decrease := m / f % U32_LIMIT;
      if target >= decrease then target - decrease else target
  }

  /** An access of page `p`, not resident, fails in the arithmetic of the target. */
  predicate AccessFails(a: Arc, p: PageId) {
    if p in a.mruGhost then RaiseFails(a.target, |a.mruGhost|, |a.mfuGhost|, a.cap)
    else p in a.mfuGhost && TargetUnderflows(a)
  }

  /** `record_access`, branch by branch. */
  function Record(a: Arc, e: Entry): (r: Outcome<Arc>) {
    var b := a.(stamp := a.stamp[e := a.clock], clock := a.clock + 1);
    if e in a.mru || e in a.mfu then
      Done(b.(mru := AllBut(a.mru, e), mfu := [e] + AllBut(a.mfu, e)))
    else if AccessFails(a, e.page) then Panic
    else if e.page in a.mruGhost then
      Done(b.(target := RaisedTarget(a.target, |a.mruGhost|, |a.mfuGhost|, a.cap),
              mruGhost := AllBut(a.mruGhost, e.page), mfu := [e] + a.mfu))
    else if e.page in a.mfuGhost then
      Done(b.(target := LoweredTarget(a.target, |a.mruGhost|, |a.mfuGhost|),
              mfuGhost := AllBut(a.mfuGhost, e.page), mfu := [e] + a.mfu))
    else if |a.mru| + |a.mruGhost| == a.cap then
      Done(b.(mruGhost := PopBack(a.mruGhost), mru := [e] + a.mru))
    else if |a.mru| + |a.mruGhost| < a.cap then
      if |a.mru| + |a.mfu| + |a.mfuGhost| + |a.mruGhost| == 2 * a.cap then
        Done(b.(mfuGhost := PopBack(a.mfuGhost), mru := [e] + a.mru))
      else
        Done(b.(mru := [e] + a.mru))
    else
      Done(b)
  }

  function Mark(a: Arc, f: FrameId): (r: Arc) {
    a.(evictable := a.evictable + {f}, currSize := a.currSize + 1)
  }

  /** The last entry of `s` whose frame is marked evictable, or -1. */
  function LastMarked(s: seq<Entry>, marked: set<FrameId>): (i: int)
    ensures -1 <= i < |s|
    ensures i >= 0 ==> s[i].frame in marked
    ensures forall j :: i < j < |s| ==> s[j].frame !in marked
  {
    if s == [] then -1
    else if s[|s| - 1].frame in marked then |s| - 1
    else LastMarked(s[..|s| - 1], marked)
  }

  datatype Pick = NoPick | FromMru(i: nat) | FromMfu(i: nat)

  /** Which entry `evict` takes: the list over its target is tried first. */
  function Victim(a: Arc): (p: Pick)
    ensures p.FromMru? ==> p.i < |a.mru| && p.i == LastMarked(a.mru, a.evictable)
    ensures p.FromMfu? ==> p.i < |a.mfu| && p.i == LastMarked(a.mfu, a.evictable)
  {
    var m, f := LastMarked(a.mru, a.evictable), LastMarked(a.mfu, a.evictable);
    if |a.mru| >= a.target then
      if m >= 0 then FromMru(m) else if f >= 0 then FromMfu(f) else NoPick
    else
      if f >= 0 then FromMfu(f) else if m >= 0 then FromMru(m) else NoPick
  }

  function VictimEntry(a: Arc): (e: Entry)
    requires !Victim(a).NoPick?
  {
    match Victim(a)
    case FromMru(i) => a.mru[i]
    case FromMfu(i) => a.mfu[i]
  }

  /** Entry `i` of the MRU list becomes a ghost. */
  function MruTaken(a: Arc, i: nat): (r: Arc)
    requires i < |a.mru| && a.currSize > 0
  {
    var e := a.mru[i];
    a.(mru := RemoveAt(a.mru, i), mruGhost := [e.page] + a.mruGhost, evictable := a.evictable - {e.frame},
       stamp := a.stamp - {e}, currSize := a.currSize - 1)
  }

  /** Entry `i` of the MFU list becomes a ghost. */
  function MfuTaken(a: Arc, i: nat): (r: Arc)
    requires i < |a.mfu| && a.currSize > 0
  {
    var e := a.mfu[i];
    a.(mfu := RemoveAt(a.mfu, i), mfuGhost := [e.page] + a.mfuGhost, evictable := a.evictable - {e.frame},
       stamp := a.stamp - {e}, currSize := a.currSize - 1)
  }

  /** The state `evict` leaves behind. */
  function Evicted(a: Arc): (r: Arc)
    requires Victim(a).NoPick? || a.currSize > 0
  {
    match Victim(a)
    case NoPick => a
    case FromMru(i) => MruTaken(a, i)
    case FromMfu(i) => MfuTaken(a, i)
  }

  // ------------------------------------------------------------------ the invariant

  ghost function Residents(a: Arc): (s: set<Entry>) {
    set e | e in a.mru + a.mfu
  }

  /** One entry per frame and per page, and no page twice among the ghosts or in both places. */
  ghost predicate OnePlace(a: Arc) {
    && SelfApart(a.mru) && SelfApart(a.mfu) && AllApart(a.mru, a.mfu)
    && NoDuplicates(a.mruGhost) && NoDuplicates(a.mfuGhost)
    && (forall p :: p in a.mruGhost ==> p !in a.mfuGhost)
    && forall e :: e in Residents(a) ==> e.page !in a.mruGhost && e.page !in a.mfuGhost
  }

  ghost predicate Apart(e: Entry, g: Entry) {
    e.frame != g.frame && e.page != g.page
  }

  /** The bounds ARC is built on. */
  ghost predicate Bounded(a: Arc) {
    && |a.mru| + |a.mruGhost| <= a.cap
    && |a.mru| + |a.mfu| <= a.cap
    && |a.mru| + |a.mfu| + |a.mruGhost| + |a.mfuGhost| <= 2 * a.cap
    && a.target <= a.cap
  }

  /** Front to back means latest to earliest access. */
  ghost predicate Newest(s: seq<Entry>, stamp: map<Entry, nat>) {
    && (forall e :: e in s ==> e in stamp)
    && forall i, j :: 0 <= i < j < |s| ==> stamp[s[i]] > stamp[s[j]]
  }

  ghost predicate Stamped(a: Arc) {
    && a.stamp.Keys == Residents(a)
    && (forall e :: e in a.stamp ==> a.stamp[e] < a.clock)
    && Newest(a.mru, a.stamp) && Newest(a.mfu, a.stamp)
  }

  ghost predicate Marked(a: Arc) {
    && |a.evictable| <= a.currSize
    && forall f :: f in a.evictable ==> exists e :: e in Residents(a) && e.frame == f
  }

  ghost predicate ArcOk(a: Arc) {
    OnePlace(a) && Bounded(a) && Stamped(a) && Marked(a)
  }

  /** What the buffer pool guarantees of the accesses it reports: the entry is resident, or its page
      and its frame are both free and there is a frame to spare. */
  ghost predicate Admissible(a: Arc, e: Entry) {
    || e in Residents(a)
    || (|a.mru| + |a.mfu| < a.cap && forall g :: g in Residents(a) ==> Apart(e, g))
  }

  // ------------------------------------------------------------------ list lemmas

  lemma {:induction false} AllButAbsent<T>(s: seq<T>, x: T)
    requires x !in s
    ensures AllBut(s, x) == s
  {
    if s != [] {
      assert x !in s[1..];
      AllButAbsent(s[1..], x);
    }
  }

  lemma {:induction false} AllButOne<T>(s: seq<T>, x: T, i: nat)
    requires NoDuplicates(s) && i < |s| && s[i] == x
    ensures AllBut(s, x) == RemoveAt(s, i)
  {
    if i == 0 {
      assert x !in s[1..];
      AllButAbsent(s[1..], x);
    } else {
      AllButOne(s[1..], x, i - 1);
    }
  }

  lemma RemovedKeeps<T>(s: seq<T>, i: nat)
    requires NoDuplicates(s) && i < |s|
    ensures NoDuplicates(RemoveAt(s, i)) && |RemoveAt(s, i)| == |s| - 1
    ensures forall x :: x in RemoveAt(s, i) <==> x in s && x != s[i]
  {
  }

  /** Filtering out one element of a list without duplicates. */
  lemma AllButKeeps<T>(s: seq<T>, x: T)
    requires NoDuplicates(s)
    ensures NoDuplicates(AllBut(s, x))
    ensures |AllBut(s, x)| == if x in s then |s| - 1 else |s|
    ensures forall y :: y in AllBut(s, x) <==> y in s && y != x
  {
    if x in s {
      var i :| 0 <= i < |s| && s[i] == x;
      AllButOne(s, x, i);
      RemovedKeeps(s, i);
    } else {
      AllButAbsent(s, x);
    }
  }

  lemma AllButNewest(s: seq<Entry>, x: Entry, stamp: map<Entry, nat>)
    requires NoDuplicates(s) && Newest(s, stamp)
    ensures Newest(AllBut(s, x), stamp)
  {
    if x in s {
      var i :| 0 <= i < |s| && s[i] == x;
      AllButOne(s, x, i);
    } else {
      AllButAbsent(s, x);
    }
  }

  /** Putting the entry accessed just now in front, and restamping it, keeps a list in order. */
  lemma PushNewest(s: seq<Entry>, e: Entry, stamp: map<Entry, nat>, clock: nat)
    requires Newest(s, stamp) && e !in s && forall g :: g in s ==> stamp[g] < clock
    ensures Newest([e] + s, stamp[e := clock])
    ensures Newest(s, stamp[e := clock])
  {
  }

  ghost predicate AllApart(s: seq<Entry>, t: seq<Entry>) {
    forall e, g :: e in s && g in t ==> Apart(e, g)
  }

  /** Entries that are pairwise apart, as sets of list elements. */
  ghost predicate SelfApart(s: seq<Entry>) {
    forall i, j :: 0 <= i < j < |s| ==> Apart(s[i], s[j])
  }

  lemma AllButApart(s: seq<Entry>, x: Entry)
    requires SelfApart(s)
    ensures NoDuplicates(s) && SelfApart(AllBut(s, x))
  {
    if x in s {
      var i :| 0 <= i < |s| && s[i] == x;
      AllButOne(s, x, i);
    } else {
      AllButAbsent(s, x);
    }
  }

  lemma PushApart(s: seq<Entry>, e: Entry)
    requires SelfApart(s) && forall g :: g in s ==> Apart(e, g)
    ensures SelfApart([e] + s)
  {
  }

  // ---------------------------------------------------- what every operation keeps

  /** The hit path: the entry moves to the front of the MFU list. */
  ghost function Promoted(a: Arc, e: Entry): (r: Arc) {
    a.(stamp := a.stamp[e := a.clock], clock := a.clock + 1, mru := AllBut(a.mru, e), mfu := [e] + AllBut(a.mfu, e))
  }

  lemma PromoteKeepsOnePlace(a: Arc, e: Entry)
    requires OnePlace(a) && e in Residents(a)
    ensures OnePlace(Promoted(a, e)) && Residents(Promoted(a, e)) == Residents(a)
    ensures |Promoted(a, e).mru| + |Promoted(a, e).mfu| == |a.mru| + |a.mfu| && |Promoted(a, e).mru| <= |a.mru|
  {
    AllButApart(a.mru, e);
    AllButApart(a.mfu, e);
    AllButKeeps(a.mru, e);
    AllButKeeps(a.mfu, e);
    forall g | g in AllBut(a.mru, e)
      ensures Apart(g, e)
    {
      assert g in a.mru && g != e;
      ResidentsApart(a, g, e);
    }
    forall g | g in AllBut(a.mfu, e)
      ensures Apart(e, g)
    {
      ResidentsApart(a, e, g);
    }
    PushApart(AllBut(a.mfu, e), e);
  }

  /** Two different residents share neither frame nor page. */
  lemma ResidentsApart(a: Arc, e: Entry, g: Entry)
    requires OnePlace(a) && e in Residents(a) && g in Residents(a) && e != g
    ensures Apart(e, g)
  {
  }

  lemma PromoteKeepsStamps(a: Arc, e: Entry)
    requires OnePlace(a) && Stamped(a) && e in Residents(a)
    ensures Stamped(Promoted(a, e))
  {
    PromoteKeepsOnePlace(a, e);
    AllButApart(a.mru, e);
    AllButApart(a.mfu, e);
    AllButKeeps(a.mru, e);
    AllButKeeps(a.mfu, e);
    AllButNewest(a.mru, e, a.stamp);
    AllButNewest(a.mfu, e, a.stamp);
    PushNewest(AllBut(a.mru, e), e, a.stamp, a.clock);
    PushNewest(AllBut(a.mfu, e), e, a.stamp, a.clock);
  }

  /** A recorded miss: the new entry goes in front of one of the resident lists. */
  ghost predicate Loaded(a: Arc, e: Entry, r: Arc) {
    && r.stamp == a.stamp[e := a.clock] && r.clock == a.clock + 1 && r.cap == a.cap
    && r.currSize == a.currSize && r.evictable == a.evictable
    && ((r.mru == [e] + a.mru && r.mfu == a.mfu) || (r.mru == a.mru && r.mfu == [e] + a.mfu))
    && (forall p :: p in r.mruGhost ==> p in a.mruGhost && p != e.page)
    && (forall p :: p in r.mfuGhost ==> p in a.mfuGhost && p != e.page)
    && NoDuplicates(r.mruGhost) && NoDuplicates(r.mfuGhost)
  }

  lemma LoadResidents(a: Arc, e: Entry, r: Arc)
    requires Loaded(a, e, r)
    ensures Residents(r) == Residents(a) + {e}
  {
    assert forall g :: g in r.mru + r.mfu <==> g in a.mru + a.mfu || g == e;
  }

  lemma LoadKeepsOnePlace(a: Arc, e: Entry, r: Arc)
    requires OnePlace(a) && Loaded(a, e, r) && forall g :: g in Residents(a) ==> Apart(e, g)
    ensures OnePlace(r)
  {
    assert forall g :: g in a.mru || g in a.mfu ==> g in Residents(a);
    LoadResidents(a, e, r);
    PushApart(a.mru, e);
    PushApart(a.mfu, e);
  }

  lemma LoadKeepsStamps(a: Arc, e: Entry, r: Arc)
    requires Stamped(a) && Loaded(a, e, r) && e !in Residents(a)
    ensures Stamped(r)
  {
    LoadResidents(a, e, r);
    assert forall g :: g in a.mru || g in a.mfu ==> g in Residents(a);
    PushNewest(a.mru, e, a.stamp, a.clock);
    PushNewest(a.mfu, e, a.stamp, a.clock);
  }

  lemma LoadKeepsMarks(a: Arc, e: Entry, r: Arc)
    requires Marked(a) && Loaded(a, e, r)
    ensures Marked(r)
  {
    LoadResidents(a, e, r);
    forall f | f in r.evictable
      ensures exists g :: g in Residents(r) && g.frame == f
    {
      var g :| g in Residents(a) && g.frame == f;
      assert g in Residents(r);
    }
  }

  lemma GhostHits(a: Arc, p: PageId)
    requires OnePlace(a)
    ensures NoDuplicates(AllBut(a.mruGhost, p)) && NoDuplicates(AllBut(a.mfuGhost, p))
    ensures NoDuplicates(PopBack(a.mruGhost)) && NoDuplicates(PopBack(a.mfuGhost))
    ensures forall q :: q in AllBut(a.mruGhost, p) ==> q in a.mruGhost && q != p
    ensures forall q :: q in AllBut(a.mfuGhost, p) ==> q in a.mfuGhost && q != p
    ensures |AllBut(a.mruGhost, p)| == |a.mruGhost| - if p in a.mruGhost then 1 else 0
    ensures |AllBut(a.mfuGhost, p)| == |a.mfuGhost| - if p in a.mfuGhost then 1 else 0
  {
    AllButKeeps(a.mruGhost, p);
    AllButKeeps(a.mfuGhost, p);
  }

  /** Which misses panic, and what the others make of the lists. */
  lemma RecordMiss(a: Arc, e: Entry)
    requires ArcOk(a) && e !in Residents(a) && Admissible(a, e)
    ensures Record(a, e).Panic? <==> AccessFails(a, e.page)
    ensures Record(a, e).Done? ==> Loaded(a, e, Record(a, e).value)
  {
    assert e !in a.mru && e !in a.mfu;
    GhostHits(a, e.page);
    var r := Record(a, e);
    if e.page in a.mruGhost {
      assert e.page !in a.mfuGhost;
    }
  }

  /** The size arithmetic of ARC: with a frame to spare, the fall-through branch that would lose the
      access is never taken, and whatever list is cut is not empty. */
  lemma RecordMissBounded(a: Arc, e: Entry)
    requires ArcOk(a) && e !in Residents(a) && Admissible(a, e) && Record(a, e).Done?
    ensures Bounded(Record(a, e).value)
    ensures |Record(a, e).value.mru| + |Record(a, e).value.mfu| == |a.mru| + |a.mfu| + 1
  {
    assert e !in a.mru && e !in a.mfu;
    GhostHits(a, e.page);
  }

  /** Up to 2^30 frames a hit in the MRU ghosts does not fail. */
  lemma RaiseSucceeds(a: Arc)
    requires Bounded(a) && a.mruGhost != [] && a.cap <= 0x4000_0000
    ensures !RaiseFails(a.target, |a.mruGhost|, |a.mfuGhost|, a.cap)
  {
    QuotientBound(|a.mfuGhost|, |a.mruGhost|);
  }

  lemma {:induction false} ProductBound(m: nat, q: nat)
    requires m > 0
    ensures q <= m * q
  {
    if m > 1 {
      ProductBound(m - 1, q);
      assert m * q == (m - 1) * q + q;
    }
  }

  lemma QuotientBound(f: nat, m: nat)
    requires m > 0
    ensures f / m <= f
  {
    ProductBound(m, f / m);
    assert f == m * (f / m) + f % m;
  }

  /** `record_access` keeps the whole invariant on every access the pool may report; it panics
      exactly where the arithmetic of the target fails, which on a hit in the MFU ghosts is with
      target 0 and no fewer MFU than MRU ghosts; and an access is never lost: the entry is resident
      afterwards. */
  lemma RecordKeeps(a: Arc, e: Entry)
    requires ArcOk(a) && Admissible(a, e)
    ensures Record(a, e).Panic? <==> e !in Residents(a) && AccessFails(a, e.page)
    ensures Record(a, e).Done? ==>
              var r := Record(a, e).value;
              && ArcOk(r) && Residents(r) == Residents(a) + {e}
              && r.stamp[e] == a.clock && r.evictable == a.evictable && r.cap == a.cap
              && |r.mru| + |r.mfu| == |a.mru| + |a.mfu| + if e in Residents(a) then 0 else 1
  {
    if e in Residents(a) {
      PromoteKeepsOnePlace(a, e);
      PromoteKeepsStamps(a, e);
      assert Record(a, e) == Done(Promoted(a, e));
    } else {
      RecordMiss(a, e);
      if Record(a, e).Done? {
        RecordMissBounded(a, e);
        var r := Record(a, e).value;
        assert e !in Residents(a);
        LoadResidents(a, e, r);
        LoadKeepsOnePlace(a, e, r);
        LoadKeepsStamps(a, e, r);
        LoadKeepsMarks(a, e, r);
      }
    }
  }

  ghost predicate ResidentFrame(a: Arc, f: FrameId) {
    exists e :: e in Residents(a) && e.frame == f
  }

  lemma MarkKeeps(a: Arc, f: FrameId)
    requires ArcOk(a) && ResidentFrame(a, f)
    ensures ArcOk(Mark(a, f)) && Residents(Mark(a, f)) == Residents(a)
  {
  }

  /** `evict` finds a victim exactly if some frame is marked, and then the size counter is positive. */
  lemma VictimExists(a: Arc)
    requires Marked(a)
    ensures Victim(a).NoPick? <==> a.evictable == {}
    ensures !Victim(a).NoPick? ==> a.currSize > 0
  {
  }

  lemma MarkedFound(s: seq<Entry>, marked: set<FrameId>, e: Entry) returns (i: nat)
    requires e in s && e.frame in marked
    ensures i < |s| && s[i] == e && LastMarked(s, marked) >= i
  {
    i :| 0 <= i < |s| && s[i] == e;
  }

  lemma OldestOfList(s: seq<Entry>, stamp: map<Entry, nat>, marked: set<FrameId>, g: Entry)
    requires Newest(s, stamp) && g in s && g.frame in marked
    ensures LastMarked(s, marked) >= 0
    ensures var e := s[LastMarked(s, marked)]; e in s && e.frame in marked && (e == g || stamp[e] < stamp[g])
  {
    var i := MarkedFound(s, marked, g);
  }

  /** Recency is real: the victim is the least recently accessed of the marked entries of its list,
      and the other list gives way only if it is not first in turn or holds nothing marked. */
  lemma VictimIsOldest(a: Arc, g: Entry)
    requires Stamped(a) && g in Residents(a) && g.frame in a.evictable
    ensures !Victim(a).NoPick? && VictimEntry(a) in Residents(a) && VictimEntry(a).frame in a.evictable
    ensures Victim(a).FromMru? && g in a.mru && g != VictimEntry(a) ==> a.stamp[VictimEntry(a)] < a.stamp[g]
    ensures Victim(a).FromMfu? && g in a.mfu && g != VictimEntry(a) ==> a.stamp[VictimEntry(a)] < a.stamp[g]
    ensures Victim(a).FromMru? && g in a.mfu ==> |a.mru| >= a.target
    ensures Victim(a).FromMfu? && g in a.mru ==> |a.mru| < a.target
  {
    if g in a.mru {
      OldestOfList(a.mru, a.stamp, a.evictable, g);
    }
    if g in a.mfu {
      OldestOfList(a.mfu, a.stamp, a.evictable, g);
    }
  }

  lemma RemovedApart(s: seq<Entry>, i: nat)
    requires SelfApart(s) && i < |s|
    ensures NoDuplicates(s) && SelfApart(RemoveAt(s, i))
    ensures forall x :: x in RemoveAt(s, i) <==> x in s && x != s[i]
  {
  }

  lemma RemovedNewest(s: seq<Entry>, t: seq<Entry>, i: nat, stamp: map<Entry, nat>)
    requires SelfApart(s) && i < |s| && Newest(s, stamp) && Newest(t, stamp) && s[i] !in t
    ensures Newest(RemoveAt(s, i), stamp - {s[i]}) && Newest(t, stamp - {s[i]})
  {
  }

  lemma PushGhost(s: seq<PageId>, p: PageId)
    requires NoDuplicates(s) && p !in s
    ensures NoDuplicates([p] + s)
  {
  }

  /** Entry `i` of resident list `s` becomes a ghost of that list; `t` is the other resident list. */
  lemma DemoteKeeps(s: seq<Entry>, t: seq<Entry>, i: nat, ghosts: seq<PageId>, others: seq<PageId>)
    requires SelfApart(s) && AllApart(s, t) && i < |s| && NoDuplicates(ghosts)
    requires forall g :: g in s || g in t ==> g.page !in ghosts && g.page !in others
    ensures s[i] !in t && SelfApart(RemoveAt(s, i)) && AllApart(RemoveAt(s, i), t)
    ensures NoDuplicates([s[i].page] + ghosts)
    ensures forall g :: g in RemoveAt(s, i) || g in t ==> g.page !in [s[i].page] + ghosts && g.page !in others
    ensures forall g :: g in RemoveAt(s, i) <==> g in s && g != s[i]
  {
    var e := s[i];
    assert e in s;
    RemovedApart(s, i);
    PushGhost(ghosts, e.page);
    assert e in t ==> Apart(e, e);
    forall g | g in RemoveAt(s, i) || g in t
      ensures g.page != e.page
    {
      if g in RemoveAt(s, i) {
        var k :| 0 <= k < |s| && s[k] == g;
        assert if k < i then Apart(s[k], s[i]) else Apart(s[i], s[k]);
      } else {
        assert Apart(e, g);
      }
    }
  }

  lemma EvictFromMru(a: Arc, i: nat)
    requires OnePlace(a) && Stamped(a) && Victim(a) == FromMru(i) && a.currSize > 0
    ensures OnePlace(Evicted(a)) && Stamped(Evicted(a)) && Residents(Evicted(a)) == Residents(a) - {a.mru[i]}
  {
    assert forall g :: g in a.mru || g in a.mfu ==> g in Residents(a);
    DemoteKeeps(a.mru, a.mfu, i, a.mruGhost, a.mfuGhost);
    RemovedNewest(a.mru, a.mfu, i, a.stamp);
    assert a.mru[i] in Residents(a);
    assert Residents(Evicted(a)) == Residents(a) - {a.mru[i]};
  }

  lemma EvictFromMfu(a: Arc, i: nat)
    requires OnePlace(a) && Stamped(a) && Victim(a) == FromMfu(i) && a.currSize > 0
    ensures OnePlace(Evicted(a)) && Stamped(Evicted(a)) && Residents(Evicted(a)) == Residents(a) - {a.mfu[i]}
  {
    assert forall g :: g in a.mru || g in a.mfu ==> g in Residents(a);
    assert forall g, h :: g in a.mfu && h in a.mru && Apart(h, g) ==> Apart(g, h);
    DemoteKeeps(a.mfu, a.mru, i, a.mfuGhost, a.mruGhost);
    RemovedNewest(a.mfu, a.mru, i, a.stamp);
    assert a.mfu[i] in Residents(a);
    assert Residents(Evicted(a)) == Residents(a) - {a.mfu[i]};
  }

  /** `evict` keeps the whole invariant; what it removes is exactly the victim. */
  lemma EvictKeeps(a: Arc)
    requires ArcOk(a) && a.evictable != {}
    ensures !Victim(a).NoPick? && a.currSize > 0
    ensures var e, r := VictimEntry(a), Evicted(a);
            && ArcOk(r) && e in Residents(a) && e.frame in a.evictable
            && Residents(r) == Residents(a) - {e} && r.evictable == a.evictable - {e.frame}
            && r.cap == a.cap && |r.mru| + |r.mfu| == |a.mru| + |a.mfu| - 1
  {
    VictimExists(a);
    match Victim(a) {
      case FromMru(i) => EvictFromMru(a, i);
      case FromMfu(i) => EvictFromMfu(a, i);
    }
    EvictKeepsMarks(a);
  }

  lemma EvictKeepsMarks(a: Arc)
    requires Marked(a) && !Victim(a).NoPick? && a.currSize > 0
    requires Residents(Evicted(a)) == Residents(a) - {VictimEntry(a)}
    ensures Marked(Evicted(a))
  {
    var e, r := VictimEntry(a), Evicted(a);
    assert e.frame in a.evictable;
    assert |a.evictable - {e.frame}| == |a.evictable| - 1;
    forall f | f in r.evictable
      ensures exists g :: g in Residents(r) && g.frame == f
    {
      var g :| g in Residents(a) && g.frame == f;
      assert g in Residents(r);
    }
  }

  /** What an access does to residents and marks. Only a first access puts an entry on the MRU list; a
      second takes it off for good. */
  ghost predicate Accessed(a: Arc, e: Entry, r: Arc) {
    && r.evictable == a.evictable && Residents(r) == Residents(a) + {e}
    && (e in Residents(a) ==> e !in r.mru)
    && (forall g :: g in r.mru && g != e ==> g in a.mru)
  }

  lemma RecordAccesses(a: Arc, e: Entry)
    requires ArcOk(a) && Admissible(a, e) && Record(a, e).Done?
    ensures Accessed(a, e, Record(a, e).value)
  {
    RecordKeeps(a, e);
    if e in Residents(a) {
      AllButApart(a.mru, e);
      AllButKeeps(a.mru, e);
    } else {
      RecordMiss(a, e);
    }
  }

  lemma EvictMru(a: Arc)
    requires ArcOk(a) && a.evictable != {} && !Victim(a).NoPick? && a.currSize > 0
    ensures forall g :: g in Evicted(a).mru ==> g in a.mru
  {
  }

  /** The page was accessed before, as far as the replacer remembers. */
  ghost predicate Remembered(a: Arc, e: Entry) {
    e in Residents(a) || e.page in a.mruGhost || e.page in a.mfuGhost
  }

  /** Frequency is real: after an access the entry is first on the MFU list exactly if its page is
      remembered, else first on the MRU list. */
  lemma RecordPlaces(a: Arc, e: Entry)
    requires ArcOk(a) && Admissible(a, e) && Record(a, e).Done?
    ensures var r := Record(a, e).value;
            && (Remembered(a, e) ==> e in r.mfu && r.mfu[0] == e && e !in r.mru)
            && (!Remembered(a, e) ==> e in r.mru && r.mru[0] == e && e !in r.mfu)
  {
    RecordAccesses(a, e);
    if e !in Residents(a) {
      RecordMiss(a, e);
    }
  }

  /** A ghost is forgotten only if its page is accessed, or it is the oldest of its list when the
      replacer is full. */
  lemma RecordForgets(a: Arc, e: Entry, p: PageId)
    requires ArcOk(a) && Admissible(a, e) && Record(a, e).Done? && p != e.page
    ensures p in a.mruGhost && p !in Record(a, e).value.mruGhost
            ==> p == a.mruGhost[|a.mruGhost| - 1] && |a.mru| + |a.mruGhost| == a.cap && !Remembered(a, e)
    ensures p in a.mfuGhost && p !in Record(a, e).value.mfuGhost
            ==> p == a.mfuGhost[|a.mfuGhost| - 1] && !Remembered(a, e)
                && |a.mru| + |a.mfu| + |a.mruGhost| + |a.mfuGhost| == 2 * a.cap
  {
    GhostKept(a.mruGhost, e.page, p);
    GhostKept(a.mfuGhost, e.page, p);
  }

  lemma GhostKept(ghosts: seq<PageId>, q: PageId, p: PageId)
    requires NoDuplicates(ghosts) && p != q
    ensures p in ghosts ==> p in AllBut(ghosts, q)
    ensures p in ghosts ==> p in PopBack(ghosts) || p == ghosts[|ghosts| - 1]
  {
    AllButKeeps(ghosts, q);
  }

  /** Eviction is remembered: a page evicted and then loaded again, into whatever frame is free, comes
      back on the MFU list, unless the arithmetic of the target fails. */
  lemma EvictedReturns(a: Arc, e: Entry, f: FrameId, r: Arc)
    requires ArcOk(a) && a.evictable != {} && !Victim(a).NoPick? && a.currSize > 0 && e == VictimEntry(a)
    requires Admissible(Evicted(a), Entry(f, e.page)) && Record(Evicted(a), Entry(f, e.page)) == Done(r)
    ensures Entry(f, e.page) in r.mfu && Entry(f, e.page) !in r.mru
  {
    EvictKeeps(a);
    RecordPlaces(Evicted(a), Entry(f, e.page));
  }

  /** How many evictions in a row would find a victim. */
  ghost function Evictions(a: Arc): (n: nat)
    requires ArcOk(a)
    decreases |a.evictable|
  {
    VictimExists(a);
    if Victim(a).NoPick? then 0
    else
      EvictKeeps(a);
      assert |a.evictable - {VictimEntry(a).frame}| == |a.evictable| - 1;
      1 + Evictions(Evicted(a))
  }

  /** The number of marked frames is the number of frames that can still be had by evicting. */
  lemma {:induction false} MarksAreEvictions(a: Arc)
    requires ArcOk(a)
    ensures Evictions(a) == |a.evictable| <= |Residents(a)|
    decreases |a.evictable|
  {
    VictimExists(a);
    if a.evictable != {} {
      EvictKeeps(a);
      assert |a.evictable - {VictimEntry(a).frame}| == |a.evictable| - 1;
      assert |Residents(a) - {VictimEntry(a)}| == |Residents(a)| - 1;
      MarksAreEvictions(Evicted(a));
    }
  }

  lemma SizeWith(s: set<FrameId>, f: FrameId)
    ensures |s + {f}| == |s| + if f in s then 0 else 1
  {
    if f in s {
      assert s + {f} == s;
    }
  }

  lemma MarkedEvictions(a: Arc, n: nat)
    requires ArcOk(a) && n == |a.evictable|
    ensures Evictions(a) == n
  {
    MarksAreEvictions(a);
  }

  lemma MarkAddsEviction(a: Arc, f: FrameId)
    requires ArcOk(a) && ResidentFrame(a, f)
    ensures ArcOk(Mark(a, f)) && Evictions(Mark(a, f)) == Evictions(a) + if f in a.evictable then 0 else 1
  {
    MarkKeeps(a, f);
    SizeWith(a.evictable, f);
    MarkedEvictions(a, |a.evictable|);
    MarkedEvictions(Mark(a, f), |a.evictable + {f}|);
  }
}
