/** The upward half of an insert: from the leaf that split to the node that absorbs the split, or
    to a new root. Everything here is about values; the methods that do it are in `BTree`. */
module BTreeClimb {
  import opened Common
  import opened Codec
  import opened BTreeShape
  import opened BTreeInsertion
  import opened BTreeLeaves
  import opened BTreePath
  import opened PageStore

  /** What does not change during one insert: the store and tree it started from, the path to the
      leaf, the highest level `b` guarded, and the entries once the leaf stage is done. */
  datatype Context = Context(start: Snapshot, levels: seq<Level>, lim: Limits, pos: seq<nat>, b: nat, es: seq<LeafKv>)

  /** Every tree page was handed out by the store, none is the header page 0, and the store has handed
      out no other page: none is lost. */
  ghost predicate Allocated(levels: seq<Level>, n: nat) {
    && (forall a, i :: 0 <= a < |levels| && 0 <= i < |levels[a]| ==> 0 < levels[a][i].child < n)
    && n == 1 + PageCount(levels)
  }

  ghost function PageCount(levels: seq<Level>): (n: nat) {
    if levels == [] then 0 else PageCount(levels[..|levels| - 1]) + |levels[|levels| - 1]|
  }

  lemma {:induction false} OnePageMore(levels: seq<Level>, j: nat, l: Level)
    requires j < |levels| && |l| == |levels[j]| + 1
    ensures PageCount(levels[j := l]) == PageCount(levels) + 1
  {
    var k := |levels| - 1;
    if j < k {
      OnePageMore(levels[..k], j, l);
      assert levels[j := l][..k] == levels[..k][j := l];
    } else {
      assert levels[j := l][..k] == levels[..k];
    }
  }

  ghost function RootOf(levels: seq<Level>): (id: PageId) {
    if |levels| > 0 && |levels[|levels| - 1]| > 0 then levels[|levels| - 1][0].child else INVALID_PAGE_ID
  }

  /** How many pages a split that has reached level `k` of the path still leads to, counted from the leaves: it
      goes up through full nodes, and past a full root there is a new root. */
  ghost function Splits(nodes: Nodes, levels: seq<Level>, lim: Limits, pos: seq<nat>, k: nat): (n: nat)
    requires |pos| == |levels| && k <= |levels| && forall t :: 0 <= t < |levels| ==> pos[t] < |levels[t]|
    ensures k <= n <= |levels| + 1
    decreases |levels| - k
  {
    if k == |levels| then k + 1
    else if Full(nodes, k, levels[k][pos[k]].child, lim) then Splits(nodes, levels, lim, pos, k + 1)
    else k
  }

  lemma {:induction false} SplitsFrom(nodes: Nodes, levels: seq<Level>, lim: Limits, pos: seq<nat>, j: nat)
    requires |pos| == |levels| && j <= |levels| && forall t :: 0 <= t < |levels| ==> pos[t] < |levels[t]|
    requires FullBelow(nodes, levels, lim, 0, j, pos)
    ensures Splits(nodes, levels, lim, pos, 0) == Splits(nodes, levels, lim, pos, j)
    decreases j
  {
    if j > 0 {
      SplitsFrom(nodes, levels, lim, pos, j - 1);
    }
  }

  ghost predicate StartOk(c: Context) {
    && LimitsOk(c.lim)
    && Tree(c.start.nodes, c.levels, c.lim, 0, 0)
    && c.start.pages.Keys == c.start.nodes.Keys && 0 in c.start.pages && Allocated(c.levels, c.start.next)
    && |c.levels| == |c.pos| && (forall t :: 0 <= t < |c.levels| ==> c.pos[t] < |c.levels[t]|)
    && c.b < |c.levels|
    && c.start.next + Splits(c.start.nodes, c.levels, c.lim, c.pos, 0) <= INVALID_PAGE_ID
  }

  /** A leaf alone: the smallest tree an insert can start from. */
  ghost function OneLeafContext(): (c: Context)
    ensures StartOk(c)
  {
    var kv := LeafKv(0, RecordId(0, 0));
    var nodes: Nodes := map[0 := Corrupt, 1 := Leaf(INVALID_PAGE_ID, [kv])];
    FirstLeaf(nodes, Limits(1, 2), 1, kv);
    Context(Snapshot(map[0 := ZeroPage(), 1 := ZeroPage()], nodes, 2), [[InternalKv(INVALID_KEY, 1)]], Limits(1, 2), [0], 0, [kv])
  }

  type Started = c: Context | StartOk(c) ghost witness OneLeafContext()

  /** The upward loop stands at level `j`: the levels below are done, and were all full on the path. */
  ghost predicate Climbing(c: Started, s: Snapshot, cur: seq<Level>, j: nat, frames: seq<PathFrame>, left: PageId, pending: InternalKv) {
    && Splitting(s.nodes, cur, c.lim, j, c.b, c.pos, frames, left, pending)
    && Allocated(cur, s.next) && s.next == c.start.next + j <= INVALID_PAGE_ID
    && InOrder(s.nodes, cur[0], 0) == c.es
    && |cur| == |c.levels| && (forall m :: j <= m < |c.levels| ==> cur[m] == c.levels[m])
    && Kept(c.start, s, PathPages(c.levels, c.pos, j))
    && FullBelow(c.start.nodes, c.levels, c.lim, 0, j, c.pos)
  }

  /** A tree at rest again. It is taller exactly if every node of the path was full, and the only
      old pages that changed are path pages up to level `b`, and the header page if the root moved. */
  ghost predicate AtRest(c: Started, s: Snapshot, final: seq<Level>) {
    && Tree(s.nodes, final, c.lim, 0, 0) && Allocated(final, s.next)
    && s.next == c.start.next + Splits(c.start.nodes, c.levels, c.lim, c.pos, 0)
    && InOrder(s.nodes, final[0], 0) == c.es
    && var allFull := FullBelow(c.start.nodes, c.levels, c.lim, 0, |c.levels|, c.pos);
    ((allFull && |final| == |c.levels| + 1 && Kept(c.start, s, PathPages(c.levels, c.pos, c.b + 1) + {0}))
     || (!allFull && Absorbed(c, s, final)))
  }

  /** The split ended on a level of the old tree. */
  ghost predicate Absorbed(c: Started, s: Snapshot, final: seq<Level>) {
    && |final| == |c.levels| && RootOf(final) == RootOf(c.levels)
    && Kept(c.start, s, PathPages(c.levels, c.pos, c.b + 1))
    && 0 in s.pages && s.pages[0] == c.start.pages[0]
  }

  /** The upward loop of one insert, standing somewhere, or `Nowhere`. */
  datatype ClimbState = Nowhere | Climbs(c: Started, s: Snapshot, cur: seq<Level>, j: nat, frames: seq<PathFrame>, left: PageId, pending: InternalKv)

  /** A state of the loop that meets its invariant. */
  type Climber = x: ClimbState | x.Climbs? ==> Climbing(x.c, x.s, x.cur, x.j, x.frames, x.left, x.pending) ghost witness Nowhere

  /** The end of one insert: the tree `final` over store `s`. */
  datatype RestState = Unfinished | Rests(c: Started, s: Snapshot, final: seq<Level>)

  type Rested = r: RestState | r.Rests? ==> AtRest(r.c, r.s, r.final) ghost witness Unfinished

  lemma MakeRested(c: Started, s: Snapshot, final: seq<Level>) returns (r: Rested)
    requires AtRest(c, s, final)
    ensures r == Rests(c, s, final)
  {
    r := Rests(c, s, final);
  }

  lemma MakeClimber(c: Started, s: Snapshot, cur: seq<Level>, j: nat, frames: seq<PathFrame>, left: PageId, pending: InternalKv)
    returns (x: Climber)
    requires Climbing(c, s, cur, j, frames, left, pending)
    ensures x == Climbs(c, s, cur, j, frames, left, pending)
  {
    x := Climbs(c, s, cur, j, frames, left, pending);
  }

  lemma KeptTransitive(s0: Snapshot, s1: Snapshot, s2: Snapshot, a: set<PageId>, b: set<PageId>)
    requires Kept(s0, s1, a) && Kept(s1, s2, b)
    ensures Kept(s0, s2, a + b)
  {
  }

  lemma KeptOneMore(s0: Snapshot, s1: Snapshot, s2: Snapshot, levels: seq<Level>, pos: seq<nat>, j: nat, id: PageId)
    requires |pos| == |levels| && j < |levels| && (forall t :: 0 <= t < |levels| ==> pos[t] < |levels[t]|)
    requires id == levels[j][pos[j]].child && Kept(s0, s1, PathPages(levels, pos, j)) && Kept(s1, s2, {id})
    ensures Kept(s0, s2, PathPages(levels, pos, j + 1))
  {
  }

  lemma UnusedIfNew(levels: seq<Level>, n: nat, id: PageId)
    requires Allocated(levels, n) && (id >= n || id == 0)
    ensures Unused(levels, id)
  {
  }

  lemma AllocatedAfterSplit(levels: seq<Level>, n: nat, j: nat, i: nat, up: InternalKv)
    requires Allocated(levels, n) && j < |levels| && i < |levels[j]| && 0 < up.child == n
    ensures Allocated(levels[j := InsertAfter(levels[j], i, up)], n + 1)
  {
    OnePageMore(levels, j, InsertAfter(levels[j], i, up));
  }

  lemma AllocatedAfterRoot(levels: seq<Level>, n: nat, id: PageId)
    requires Allocated(levels, n) && 0 < id == n
    ensures Allocated(levels + [[InternalKv(INVALID_KEY, id)]], n + 1)
  {
    assert (levels + [[InternalKv(INVALID_KEY, id)]])[..|levels|] == levels;
  }

  /** A path node the split has not reached yet is still as full as it was at the start. */
  lemma FullAsBefore(c: Started, s: Snapshot, j: nat)
    requires 0 < j < |c.levels| && Kept(c.start, s, PathPages(c.levels, c.pos, j))
    ensures Full(s.nodes, j, c.levels[j][c.pos[j]].child, c.lim) <==> Full(c.start.nodes, j, c.levels[j][c.pos[j]].child, c.lim)
  {
    NotOnPathBelow(c.levels, c.pos, j, j, c.pos[j]);
    PathNode(c.start.nodes, c.levels, c.lim, j, c.pos[j]);
  }

  lemma FullBelowMore(c: Started, j: nat)
    requires j < |c.levels| && FullBelow(c.start.nodes, c.levels, c.lim, 0, j, c.pos)
    requires Full(c.start.nodes, j, c.levels[j][c.pos[j]].child, c.lim)
    ensures FullBelow(c.start.nodes, c.levels, c.lim, 0, j + 1, c.pos)
  {
  }

  /** The frame on top of the stack is the parent, and lists the page that split at one place. */
  lemma ParentOf(x: Climber) returns (q: nat)
    requires x.Climbs? && |x.frames| > 0
    ensures 0 < x.j <= x.c.b < |x.cur| && x.c.pos[x.j] < |x.cur[x.j]|
    ensures x.frames[|x.frames| - 1].pageId == x.cur[x.j][x.c.pos[x.j]].child
    ensures var id := x.frames[|x.frames| - 1].pageId;
            && id in x.s.nodes && x.s.nodes[id].Internal?
            && x.c.pos[x.j - 1] == Offset(x.s.nodes, x.cur[x.j], x.c.pos[x.j]) + q && q < |x.s.nodes[id].kids| <= x.c.lim.internalMax
            && forall r :: 0 <= r < |x.s.nodes[id].kids| ==> (x.s.nodes[id].kids[r].child == x.left <==> r == q)
  {
    q := AtParent(x.s.nodes, x.cur, x.c.lim, x.j, x.c.b, x.c.pos, x.frames, x.left, x.pending);
  }

  /** `q` is where the page that split stands in its parent. */
  ghost predicate LeftAt(x: Climber, q: nat) {
    && x.Climbs? && 0 < x.j <= x.c.b < |x.cur| && x.c.pos[x.j] < |x.cur[x.j]|
    && q < |ChildrenOf(x.s.nodes, x.cur[x.j][x.c.pos[x.j]].child)|
    && x.c.pos[x.j - 1] == Offset(x.s.nodes, x.cur[x.j], x.c.pos[x.j]) + q
  }

  lemma SameRoot(cur: seq<Level>, levels: seq<Level>, j: nat)
    requires |cur| == |levels| && j < |levels| && forall m :: j <= m < |levels| ==> cur[m] == levels[m]
    ensures RootOf(cur) == RootOf(levels)
  {
  }

  lemma SplitAbsorbed(c: Started, s: Snapshot, s': Snapshot, cur: seq<Level>, j: nat, frames: seq<PathFrame>, left: PageId,
                      pending: InternalKv, q: nat, kids: Level)
    requires Climbing(c, s, cur, j, frames, left, pending) && j <= c.b
    requires var ks := ChildrenOf(s.nodes, cur[j][c.pos[j]].child);
             && q < |ks| < c.lim.internalMax && c.pos[j - 1] == Offset(s.nodes, cur[j], c.pos[j]) + q
             && kids == InsertAfter(ks, q, pending)
             && s'.nodes == s.nodes[cur[j][c.pos[j]].child := Internal(kids)]
    requires s'.next == s.next && Kept(s, s', {cur[j][c.pos[j]].child})
    ensures AtRest(c, s', cur) && Absorbed(c, s', cur)
  {
    GrowUp(s.nodes, cur, c.lim, j, c.b, c.pos, frames, left, pending, q, kids);
    FullAsBefore(c, s, j);
    KeptOneMore(c.start, s, s', c.levels, c.pos, j, cur[j][c.pos[j]].child);
    SameRoot(cur, c.levels, j);
    RestsAt(c, s', cur, j);
  }

  /** The parent had room and took the separator: the tree is at rest. */
  lemma ClimbEnds(x: Climber, s': Snapshot, q: nat, kids: Level) returns (r: Rested)
    requires LeftAt(x, q)
    requires var id := x.cur[x.j][x.c.pos[x.j]].child;
             && kids == InsertAfter(ChildrenOf(x.s.nodes, id), q, x.pending) && |kids| <= x.c.lim.internalMax
             && s'.nodes == x.s.nodes[id := Internal(kids)] && s'.next == x.s.next && Kept(x.s, s', {id})
    ensures r == Rests(x.c, s', x.cur) && Absorbed(x.c, s', x.cur)
  {
    SplitAbsorbed(x.c, x.s, s', x.cur, x.j, x.frames, x.left, x.pending, q, kids);
    r := MakeRested(x.c, s', x.cur);
  }

  lemma RestsAt(c: Started, s: Snapshot, final: seq<Level>, j: nat)
    requires j <= c.b
    requires Tree(s.nodes, final, c.lim, 0, 0) && Allocated(final, s.next) && InOrder(s.nodes, final[0], 0) == c.es
    requires s.next == c.start.next + j && FullBelow(c.start.nodes, c.levels, c.lim, 0, j, c.pos)
    requires |final| == |c.levels| && RootOf(final) == RootOf(c.levels)
    requires !Full(c.start.nodes, j, c.levels[j][c.pos[j]].child, c.lim) && Kept(c.start, s, PathPages(c.levels, c.pos, j + 1))
    ensures AtRest(c, s, final) && Absorbed(c, s, final)
  {
    SplitsFrom(c.start.nodes, c.levels, c.lim, c.pos, j);
  }

  lemma RestedAt(c: Started, s: Snapshot, final: seq<Level>, j: nat) returns (r: Rested)
    requires j <= c.b
    requires Tree(s.nodes, final, c.lim, 0, 0) && Allocated(final, s.next) && InOrder(s.nodes, final[0], 0) == c.es
    requires s.next == c.start.next + j && FullBelow(c.start.nodes, c.levels, c.lim, 0, j, c.pos)
    requires |final| == |c.levels| && RootOf(final) == RootOf(c.levels)
    requires !Full(c.start.nodes, j, c.levels[j][c.pos[j]].child, c.lim) && Kept(c.start, s, PathPages(c.levels, c.pos, j + 1))
    ensures r == Rests(c, s, final) && Absorbed(c, s, final)
  {
    RestsAt(c, s, final, j);
    r := MakeRested(c, s, final);
  }

  /** The parent at level `x.j` of the path took the pending separator and split: `kids` are its entries
      before the split, `up` the separator it passes on. */
  ghost predicate PassesOn(x: Climber, s': Snapshot, q: nat, kids: Level, up: InternalKv) {
    && LeftAt(x, q)
    && var id := x.cur[x.j][x.c.pos[x.j]].child;
    && kids == InsertAfter(ChildrenOf(x.s.nodes, id), q, x.pending) && |kids| == x.c.lim.internalMax + 1
    && s'.nodes == SplitNode(x.s.nodes, id, kids, x.s.next) && s'.next == x.s.next + 1 && Kept(x.s, s', {id})
    && up == InternalKv(kids[|kids| / 2].key, x.s.next)
  }

  ghost function Passed(x: Climber, up: InternalKv): (cur': seq<Level>)
    requires x.Climbs? && x.j < |x.cur| && x.j < |x.c.pos| && x.c.pos[x.j] < |x.cur[x.j]|
  {
    x.cur[x.j := InsertAfter(x.cur[x.j], x.c.pos[x.j], up)]
  }

  lemma NextUnused(x: Climber)
    requires x.Climbs?
    ensures 0 < x.s.next <= INVALID_PAGE_ID && Unused(x.cur, x.s.next)
  {
    UnusedIfNew(x.cur, x.s.next, x.s.next);
  }

  /** There is a page id left for the new half of a full parent. */
  lemma ParentIdLeft(x: Climber, q: nat)
    requires LeftAt(x, q) && Full(x.s.nodes, x.j, x.cur[x.j][x.c.pos[x.j]].child, x.c.lim)
    ensures x.s.next < INVALID_PAGE_ID
  {
    FullAsBefore(x.c, x.s, x.j);
    FullBelowMore(x.c, x.j);
    SplitsFrom(x.c.start.nodes, x.c.levels, x.c.lim, x.c.pos, x.j + 1);
  }

  /** There is a page id left for a new root. */
  lemma RootIdLeft(x: Climber)
    requires x.Climbs? && x.frames == []
    ensures x.j == |x.c.levels| && 0 < x.s.next < INVALID_PAGE_ID
    ensures x.s.next + 1 == x.c.start.next + Splits(x.c.start.nodes, x.c.levels, x.c.lim, x.c.pos, 0)
  {
    SplitsFrom(x.c.start.nodes, x.c.levels, x.c.lim, x.c.pos, x.j);
  }

  /** The levels above the parent are those the insert started from. */
  lemma PassedAbove(x: Climber, up: InternalKv)
    requires x.Climbs? && x.j <= x.c.b
    ensures |Passed(x, up)| == |x.c.levels| && forall m :: x.j < m < |x.c.levels| ==> Passed(x, up)[m] == x.c.levels[m]
  {
  }

  lemma PassedTree(x: Climber, s': Snapshot, q: nat, kids: Level, up: InternalKv)
    requires PassesOn(x, s', q, kids, up)
    ensures Splitting(s'.nodes, Passed(x, up), x.c.lim, x.j + 1, x.c.b, x.c.pos, x.frames[..|x.frames| - 1],
                      x.cur[x.j][x.c.pos[x.j]].child, up)
    ensures InOrder(s'.nodes, Passed(x, up)[0], 0) == x.c.es
  {
    NextUnused(x);
    SplitUp(x.s.nodes, x.cur, x.c.lim, x.j, x.c.b, x.c.pos, x.frames, x.left, x.pending, q, kids, s'.nodes, up);
  }

  lemma PassedIds(x: Climber, s': Snapshot, q: nat, kids: Level, up: InternalKv)
    requires PassesOn(x, s', q, kids, up)
    ensures Allocated(Passed(x, up), s'.next) && s'.next == x.c.start.next + x.j + 1 <= INVALID_PAGE_ID
  {
    ParentIdLeft(x, q);
    AllocatedAfterSplit(x.cur, x.s.next, x.j, x.c.pos[x.j], up);
  }

  lemma PassedKept(x: Climber, s': Snapshot, q: nat, kids: Level, up: InternalKv)
    requires PassesOn(x, s', q, kids, up)
    ensures Kept(x.c.start, s', PathPages(x.c.levels, x.c.pos, x.j + 1))
    ensures FullBelow(x.c.start.nodes, x.c.levels, x.c.lim, 0, x.j + 1, x.c.pos)
  {
    FullAsBefore(x.c, x.s, x.j);
    FullBelowMore(x.c, x.j);
    KeptOneMore(x.c.start, x.s, s', x.c.levels, x.c.pos, x.j, x.cur[x.j][x.c.pos[x.j]].child);
  }

  /** The parent was full and split: the loop goes on one level up. */
  lemma ClimbGoesOn(x: Climber, s': Snapshot, q: nat, kids: Level, up: InternalKv) returns (x': Climber)
    requires PassesOn(x, s', q, kids, up)
    ensures x'.Climbs? && x'.c == x.c && x'.s == s' && x'.frames == x.frames[..|x.frames| - 1]
    ensures x'.left == x.cur[x.j][x.c.pos[x.j]].child && x'.pending == up
  {
    PassedTree(x, s', q, kids, up);
    PassedIds(x, s', q, kids, up);
    PassedKept(x, s', q, kids, up);
    PassedAbove(x, up);
    x' := MakeClimber(x.c, s', Passed(x, up), x.j + 1, x.frames[..|x.frames| - 1], x.cur[x.j][x.c.pos[x.j]].child, up);
  }

  /** The old root split, and the page after the last one taken is the new root over both halves. */
  ghost predicate RootMade(x: Climber, s': Snapshot) {
    && x.Climbs? && x.frames == []
    && 0 in s'.nodes && s'.nodes == x.s.nodes[x.s.next := Internal([InternalKv(INVALID_KEY, x.left), x.pending])][0 := s'.nodes[0]]
    && s'.next == x.s.next + 1 && Kept(x.s, s', {0})
  }

  ghost function Rooted(x: Climber): (final: seq<Level>)
    requires x.Climbs?
  {
    x.cur + [[InternalKv(INVALID_KEY, x.s.next)]]
  }

  lemma RootedTree(x: Climber, s': Snapshot)
    requires RootMade(x, s')
    ensures Allocated(Rooted(x), s'.next) && Tree(s'.nodes, Rooted(x), x.c.lim, 0, 0) && InOrder(s'.nodes, Rooted(x)[0], 0) == x.c.es
  {
    RootIdLeft(x);
    NextUnused(x);
    var root := x.s.next;
    var grown := x.s.nodes[root := Internal([InternalKv(INVALID_KEY, x.left), x.pending])];
    RootUp(x.s.nodes, x.cur, x.c.lim, x.j, x.c.b, x.c.pos, x.left, x.pending, root);
    AllocatedAfterRoot(x.cur, root, root);
    UnusedIfNew(Rooted(x), root + 1, 0);
    OutsidePage(grown, Rooted(x), x.c.lim, 0, s'.nodes[0]);
  }

  lemma RootedRest(x: Climber, s': Snapshot)
    requires RootMade(x, s')
    ensures x.j == |x.c.levels| == x.c.b + 1 && |Rooted(x)| == |x.c.levels| + 1
    ensures s'.next == x.c.start.next + Splits(x.c.start.nodes, x.c.levels, x.c.lim, x.c.pos, 0)
    ensures FullBelow(x.c.start.nodes, x.c.levels, x.c.lim, 0, |x.c.levels|, x.c.pos)
    ensures Kept(x.c.start, s', PathPages(x.c.levels, x.c.pos, x.c.b + 1) + {0})
  {
    RootIdLeft(x);
    KeptTransitive(x.c.start, x.s, s', PathPages(x.c.levels, x.c.pos, x.j), {0});
  }

  /** No frame is left: both halves of the old root go under the new one. */
  lemma ClimbToRoot(x: Climber, s': Snapshot) returns (r: Rested)
    requires RootMade(x, s')
    ensures r == Rests(x.c, s', Rooted(x))
  {
    RootedTree(x, s');
    RootedRest(x, s');
    r := MakeRested(x.c, s', Rooted(x));
  }

  /** An insert that has reached its leaf. */
  ghost predicate AtLeaf(start: Snapshot, levels: seq<Level>, lim: Limits, pos: seq<nat>, b: nat, stack: seq<PathFrame>, key: Key) {
    && LimitsOk(lim) && Tree(start.nodes, levels, lim, 0, 0)
    && start.pages.Keys == start.nodes.Keys && 0 in start.pages && Allocated(levels, start.next)
    && Descending(start.nodes, levels, lim, 0, b, pos, stack, key)
    && start.next + Splits(start.nodes, levels, lim, pos, 0) <= INVALID_PAGE_ID
  }

  lemma LeafStarts(start: Snapshot, levels: seq<Level>, lim: Limits, pos: seq<nat>, b: nat, stack: seq<PathFrame>, key: Key, es: seq<LeafKv>)
    returns (c: Started)
    requires AtLeaf(start, levels, lim, pos, b, stack, key)
    ensures c == Context(start, levels, lim, pos, b, es)
  {
    c := Context(start, levels, lim, pos, b, es);
  }

  lemma FirstPathPage(s0: Snapshot, s: Snapshot, levels: seq<Level>, pos: seq<nat>)
    requires |pos| == |levels| > 0 && pos[0] < |levels[0]| && Kept(s0, s, {levels[0][pos[0]].child})
    ensures Kept(s0, s, PathPages(levels, pos, 1))
  {
  }

  /** What the leaf stage of an insert writes if the leaf has room. */
  ghost predicate LeafWritten(start: Snapshot, s': Snapshot, levels: seq<Level>, lim: Limits, pos: seq<nat>, kv: LeafKv, es': seq<LeafKv>)
    requires |levels| > 0 && |pos| > 0 && pos[0] < |levels[0]|
  {
    var id := levels[0][pos[0]].child;
    && SortedPush(EntriesOf(start.nodes, id), kv, es') && |es'| <= lim.leafMax
    && id in start.nodes && start.nodes[id].Leaf?
    && s'.nodes == LeafSet(start.nodes, id, start.nodes[id].next, es') && Kept(start, s', {id}) && s'.next == start.next
  }

  lemma LeafWrittenTree(start: Snapshot, s': Snapshot, levels: seq<Level>, lim: Limits, pos: seq<nat>, kv: LeafKv, es': seq<LeafKv>)
    requires LimitsOk(lim) && Tree(start.nodes, levels, lim, 0, 0) && |pos| == |levels|
    requires At(levels[0], pos[0], kv.key) && LeafWritten(start, s', levels, lim, pos, kv, es')
    ensures Tree(s'.nodes, levels, lim, 0, 0)
    ensures multiset(InOrder(s'.nodes, levels[0], 0)) == multiset(InOrder(start.nodes, levels[0], 0)) + multiset{kv}
    ensures |EntriesOf(start.nodes, levels[0][pos[0]].child)| < lim.leafMax
  {
    LeafGrowStep(start.nodes, levels, lim, pos[0], kv, es');
    SortedPushSize(EntriesOf(start.nodes, levels[0][pos[0]].child), kv, es');
  }

  /** The leaf had room. */
  lemma LeafFits(start: Snapshot, s': Snapshot, levels: seq<Level>, lim: Limits, pos: seq<nat>, b: nat, stack: seq<PathFrame>,
                 kv: LeafKv, es': seq<LeafKv>) returns (r: Rested)
    requires AtLeaf(start, levels, lim, pos, b, stack, kv.key) && LeafWritten(start, s', levels, lim, pos, kv, es')
    ensures r.Rests? && r.c == Context(start, levels, lim, pos, b, r.c.es) && r.s == s' && r.final == levels
    ensures multiset(r.c.es) == multiset(InOrder(start.nodes, levels[0], 0)) + multiset{kv}
    ensures Absorbed(r.c, s', levels)
  {
    LeafWrittenTree(start, s', levels, lim, pos, kv, es');
    var c := LeafStarts(start, levels, lim, pos, b, stack, kv.key, InOrder(s'.nodes, levels[0], 0));
    FirstPathPage(start, s', levels, pos);
    r := RestedAt(c, s', levels, 0);
  }

  /** There is a page id left for the new half of a full leaf. */
  lemma LeafIdLeft(start: Snapshot, levels: seq<Level>, lim: Limits, pos: seq<nat>, b: nat, stack: seq<PathFrame>, key: Key)
    requires AtLeaf(start, levels, lim, pos, b, stack, key) && |EntriesOf(start.nodes, levels[0][pos[0]].child)| >= lim.leafMax
    ensures start.next < INVALID_PAGE_ID
  {
    assert Splits(start.nodes, levels, lim, pos, 0) == Splits(start.nodes, levels, lim, pos, 1);
  }

  lemma LeafIds(start: Snapshot, levels: seq<Level>, lim: Limits, pos: seq<nat>, b: nat, stack: seq<PathFrame>, key: Key, up: InternalKv)
    requires AtLeaf(start, levels, lim, pos, b, stack, key) && |EntriesOf(start.nodes, levels[0][pos[0]].child)| >= lim.leafMax
    requires up.child == start.next
    ensures Unused(levels, start.next) && start.next < INVALID_PAGE_ID
    ensures Allocated(levels[0 := InsertAfter(levels[0], pos[0], up)], start.next + 1)
  {
    LeafIdLeft(start, levels, lim, pos, b, stack, key);
    UnusedIfNew(levels, start.next, start.next);
    AllocatedAfterSplit(levels, start.next, 0, pos[0], up);
  }

  /** The leaf was full and split. */
  lemma LeafGoesUp(start: Snapshot, s': Snapshot, levels: seq<Level>, lim: Limits, pos: seq<nat>, b: nat, stack: seq<PathFrame>,
                   kv: LeafKv, es': seq<LeafKv>, up: InternalKv) returns (x: Climber)
    requires AtLeaf(start, levels, lim, pos, b, stack, kv.key)
    requires var id := levels[0][pos[0]].child;
             && SortedPush(EntriesOf(start.nodes, id), kv, es') && |es'| > lim.leafMax
             && id in start.nodes && start.nodes[id].Leaf?
             && s'.nodes == SplitLeaf(start.nodes, id, start.nodes[id].next, es', start.next) && Kept(start, s', {id})
             && up == InternalKv(es'[|es'| / 2].key, start.next)
    requires s'.next == start.next + 1
    ensures |stack| > 0 && x.Climbs? && x.c == Context(start, levels, lim, pos, b, x.c.es)
    ensures multiset(x.c.es) == multiset(InOrder(start.nodes, levels[0], 0)) + multiset{kv}
    ensures x.s == s' && x.frames == stack[..|stack| - 1] && x.left == levels[0][pos[0]].child && x.pending == up
  {
    SortedPushSize(EntriesOf(start.nodes, levels[0][pos[0]].child), kv, es');
    LeafIds(start, levels, lim, pos, b, stack, kv.key, up);
    LeafSplitUp(start.nodes, levels, lim, b, pos, stack, kv, es', start.next);
    var cur := levels[0 := InsertAfter(levels[0], pos[0], up)];
    var c := LeafStarts(start, levels, lim, pos, b, stack, kv.key, InOrder(s'.nodes, cur[0], 0));
    FirstPathPage(start, s', levels, pos);
    FullBelowMore(c, 0);
    x := MakeClimber(c, s', cur, 1, stack[..|stack| - 1], levels[0][pos[0]].child, up);
  }

  // ------------------------------------------------------------- what one insert does

  /** Every node from the root to the leaf of `key` is full. */
  ghost predicate PathFull(nodes: Nodes, levels: seq<Level>, lim: Limits, key: Key) {
    forall m: nat, i: nat :: m < |levels| && At(levels[m], i, key) ==> Full(nodes, m, levels[m][i].child, lim)
  }

  /** `x` is a node of the path of `key`, and every path node below it is full. */
  ghost predicate UnderFullPath(nodes: Nodes, levels: seq<Level>, lim: Limits, key: Key, x: PageId) {
    exists m: nat, i: nat :: m < |levels| && At(levels[m], i, key) && levels[m][i].child == x
                             && PathFull(nodes, levels[..m], lim, key)
  }

  /** The path node of level `k` is full. */
  ghost predicate FullAt(nodes: Nodes, levels: seq<Level>, lim: Limits, key: Key, k: nat)
    requires k < |levels|
  {
    forall i: nat :: At(levels[k], i, key) ==> Full(nodes, k, levels[k][i].child, lim)
  }

  /** How many pages an insert of `key` takes: one for each node of the full lower stretch of the path, from level
      `k` up counted on, and one for a new root if that is the whole path. */
  ghost function PagesTaken(nodes: Nodes, levels: seq<Level>, lim: Limits, key: Key, k: nat): (n: nat)
    requires k <= |levels|
    ensures k <= n <= |levels| + 1
    decreases |levels| - k
  {
    if k == |levels| then k + 1
    else if FullAt(nodes, levels, lim, key, k) then PagesTaken(nodes, levels, lim, key, k + 1)
    else k
  }

  lemma {:induction false} SplitsAreTaken(nodes: Nodes, levels: seq<Level>, lim: Limits, pos: seq<nat>, key: Key, k: nat)
    requires Tree(nodes, levels, lim, 0, 0) && PathOf(nodes, levels, 0, pos, key) && k <= |levels|
    ensures PagesTaken(nodes, levels, lim, key, k) == Splits(nodes, levels, lim, pos, k)
    decreases |levels| - k
  {
    if k < |levels| {
      OnPath(nodes, levels, lim, pos, key, k);
      SplitsAreTaken(nodes, levels, lim, pos, key, k + 1);
    }
  }

  lemma OnPath(nodes: Nodes, levels: seq<Level>, lim: Limits, pos: seq<nat>, key: Key, k: nat)
    requires Tree(nodes, levels, lim, 0, 0) && PathOf(nodes, levels, 0, pos, key) && k < |levels|
    ensures FullAt(nodes, levels, lim, key, k) <==> Full(nodes, k, levels[k][pos[k]].child, lim)
  {
    LevelsSorted(nodes, levels, lim, 0, 0, k);
    forall i: nat | At(levels[k], i, key)
      ensures i == pos[k]
    {
      AtUnique(levels[k], i, pos[k], key);
    }
  }

  lemma PathSlot(c: Started, key: Key, m: nat, i: nat)
    requires PathOf(c.start.nodes, c.levels, 0, c.pos, key) && m < |c.levels| && At(c.levels[m], i, key)
    ensures i == c.pos[m]
  {
    LevelsSorted(c.start.nodes, c.levels, c.lim, 0, 0, m);
    AtUnique(c.levels[m], i, c.pos[m], key);
  }

  lemma FullBelowIsPathFull(c: Started, key: Key, m: nat)
    requires PathOf(c.start.nodes, c.levels, 0, c.pos, key) && m <= |c.levels|
    ensures FullBelow(c.start.nodes, c.levels, c.lim, 0, m, c.pos) <==> PathFull(c.start.nodes, c.levels[..m], c.lim, key)
  {
    var l := c.levels[..m];
    if FullBelow(c.start.nodes, c.levels, c.lim, 0, m, c.pos) {
      forall t: nat, i: nat | t < |l| && At(l[t], i, key)
        ensures Full(c.start.nodes, t, l[t][i].child, c.lim)
      {
        PathSlot(c, key, t, i);
      }
    }
    if PathFull(c.start.nodes, l, c.lim, key) {
      forall t | 0 <= t < m
        ensures Full(c.start.nodes, t, c.levels[t][c.pos[t]].child, c.lim)
      {
        assert At(l[t], c.pos[t], key);
      }
    }
  }

  /** What an insert of `key` did to a store and the tree in it: the tree grew taller exactly if the whole path
      was full; a page was taken for each node that split and for a new root, no other; and a page outside the
      full lower stretch of the path is left as it was, but for the header page 0 if the tree grew. */
  ghost predicate Inserted(start: Snapshot, levels: seq<Level>, lim: Limits, key: Key, s: Snapshot, height: nat) {
    && height == |levels| + (if PathFull(start.nodes, levels, lim, key) then 1 else 0)
    && s.next == start.next + PagesTaken(start.nodes, levels, lim, key, 0)
    && forall x | x in start.pages && !UnderFullPath(start.nodes, levels, lim, key, x) ::
      (x != 0 || height == |levels|) ==> x in s.pages && s.pages[x] == start.pages[x]
  }

  /** The outcome of an insert, without the path. */
  lemma InsertOutcome(r: Rested, key: Key)
    requires r.Rests? && PathOf(r.c.start.nodes, r.c.levels, 0, r.c.pos, key)
    requires Held(r.c.start.nodes, r.c.levels, r.c.lim, 0, r.c.b, r.c.pos)
    ensures Inserted(r.c.start, r.c.levels, r.c.lim, key, r.s, |r.final|)
  {
    var c := r.c;
    SplitsAreTaken(c.start.nodes, c.levels, c.lim, c.pos, key, 0);
    FullBelowIsPathFull(c, key, |c.levels|);
    assert c.levels[..|c.levels|] == c.levels;
    forall x | x in PathPages(c.levels, c.pos, c.b + 1)
      ensures UnderFullPath(c.start.nodes, c.levels, c.lim, key, x)
    {
      var t: nat :| t <= c.b && x == c.levels[t][c.pos[t]].child;
      assert FullBelow(c.start.nodes, c.levels, c.lim, 0, t, c.pos);
      FullBelowIsPathFull(c, key, t);
      assert At(c.levels[t], c.pos[t], key);
    }
  }
}
