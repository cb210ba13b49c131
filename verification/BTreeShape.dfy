/** The B+tree invariant, over decoded pages.

    A tree of height h is described by h + 1 levels. Level 0 lists the leaves from left to
    right; each level above lists the internal nodes of that height from left to right; the last
    level holds the root alone. A slot of a level pairs a page id with the lower bound of the
    keys below it. The child lists of one level, written one after the other, are the level
    below it: so all leaves are equally deep, and every page but the root has exactly one parent.

    While a split travels up, one level already has a slot its parents do not know yet: `hole`
    and `p` name it. `hole == 0` is a tree at rest. */
module BTreeShape {
  import opened Common
  import opened Codec

  type Nodes = map<PageId, Node>
  type Level = seq<InternalKv>

  datatype Limits = Limits(leafMax: nat, internalMax: nat)

  ghost predicate LimitsOk(lim: Limits) {
    1 <= lim.leafMax <= LEAF_PAGE_MAX && 2 <= lim.internalMax <= INTERNAL_PAGE_MAX
  }

  ghost function EntriesOf(nodes: Nodes, id: PageId): (es: seq<LeafKv>) {
    if id in nodes && nodes[id].Leaf? then nodes[id].entries else []
  }

  ghost function ChildrenOf(nodes: Nodes, id: PageId): (ks: Level) {
    if id in nodes && nodes[id].Internal? then nodes[id].kids else []
  }

  /** In-order traversal of the subtrees rooted at `slots`, which stand at height `h`. */
  ghost function InOrder(nodes: Nodes, slots: Level, h: nat): (es: seq<LeafKv>)
    decreases h, |slots|
  {
    if slots == [] then [] else
      (if h == 0 then EntriesOf(nodes, slots[0].child)
       else InOrder(nodes, ChildrenOf(nodes, slots[0].child), h - 1))
      + InOrder(nodes, slots[1..], h)
  }

  /** The children of `x` as slots of the level below: the first inherits the bound of `x`, since
      the key stored with it is only a placeholder. */
  ghost function Run(nodes: Nodes, x: InternalKv): (r: Level) {
    var ks := ChildrenOf(nodes, x.child);
    if ks == [] then [] else ks[0 := InternalKv(x.key, ks[0].child)]
  }

  ghost function Below(nodes: Nodes, level: Level): (r: Level) {
    if level == [] then [] else Run(nodes, level[0]) + Below(nodes, level[1..])
  }

  /** Leaf `i` of level `l`. */
  ghost predicate LeafOk(nodes: Nodes, l: Level, i: int, lim: Limits)
    requires 0 <= i < |l|
  {
    && l[i].child in nodes && nodes[l[i].child].Leaf?
    && var Leaf(next, es) := nodes[l[i].child];
    && SortedLeaf(es)
    && 1 <= |es| <= lim.leafMax
    && (|l| > 1 ==> (lim.leafMax + 1) / 2 <= |es|)
    && (i > 0 ==> es[0].key == l[i].key)
    && (i + 1 < |l| ==> es[|es| - 1].key <= l[i + 1].key)
    && next == if i + 1 < |l| then l[i + 1].child else INVALID_PAGE_ID
  }

  ghost predicate LeavesOk(nodes: Nodes, l: Level, lim: Limits) {
    && |l| > 0 && l[0].key == INVALID_KEY
    && forall i :: 0 <= i < |l| ==> LeafOk(nodes, l, i, lim)
  }

  ghost predicate InternalOk(nodes: Nodes, id: PageId, atLeast: nat, lim: Limits) {
    && id in nodes && nodes[id].Internal?
    && var ks := nodes[id].kids;
    && 1 <= |ks| <= lim.internalMax && atLeast <= |ks|
    && ks[0].key == INVALID_KEY
  }

  ghost function MinKids(level: Level, lim: Limits): (n: nat) {
    if |level| > 1 then (lim.internalMax + 1) / 2 else 1
  }

  ghost predicate AllInternalOk(nodes: Nodes, l: Level, atLeast: nat, lim: Limits) {
    forall a :: 0 <= a < |l| ==> InternalOk(nodes, l[a].child, atLeast, lim)
  }

  ghost predicate LevelOk(nodes: Nodes, upper: Level, lower: Level, lim: Limits) {
    && AllInternalOk(nodes, upper, MinKids(upper, lim), lim)
    && Below(nodes, upper) == lower
  }

  /** The page id of slot `i` of level `a`. */
  ghost function PageAt(levels: seq<Level>, a: nat, i: nat): (id: PageId)
    requires a < |levels| && i < |levels[a]|
  {
    levels[a][i].child
  }

  /** No page appears twice, on one level or on two. */
  ghost predicate Distinct(levels: seq<Level>) {
    forall a: nat, i: nat, b: nat, j: nat {:trigger PageAt(levels, a, i), PageAt(levels, b, j)} ::
      (a < |levels| && i < |levels[a]| && b < |levels| && j < |levels[b]|
       && PageAt(levels, a, i) == PageAt(levels, b, j)) ==> a == b && i == j
  }

  /** Level `m` as the level above it sees it. */
  ghost function Known(levels: seq<Level>, m: nat, hole: nat, p: nat): (r: Level)
    requires m < |levels|
    requires m + 1 == hole ==> p + 1 < |levels[m]|
  {
    if m + 1 == hole then RemoveAt(levels[m], p + 1) else levels[m]
  }

  ghost predicate HoleOk(levels: seq<Level>, hole: nat, p: nat) {
    && |levels| > 0 && hole <= |levels|
    && (hole > 0 ==> p + 1 < |levels[hole - 1]|)
  }

  /** Each level lists exactly the children of the level above it. */
  ghost predicate LinksOk(nodes: Nodes, levels: seq<Level>, lim: Limits, hole: nat, p: nat)
    requires HoleOk(levels, hole, p)
  {
    forall m :: 0 <= m < |levels| - 1 ==> LevelOk(nodes, levels[m + 1], Known(levels, m, hole, p), lim)
  }

  /** There is one root, and an internal root has two children or more. */
  ghost predicate TopOk(levels: seq<Level>, hole: nat, p: nat)
    requires HoleOk(levels, hole, p)
  {
    if hole == |levels| then |levels[|levels| - 1]| == 2 && p == 0
    else |levels[|levels| - 1]| == 1 && (|levels| > 1 ==> |levels[|levels| - 2]| >= 2)
  }

  ghost predicate Tree(nodes: Nodes, levels: seq<Level>, lim: Limits, hole: nat, p: nat) {
    && HoleOk(levels, hole, p)
    && LeavesOk(nodes, levels[0], lim)
    && LinksOk(nodes, levels, lim, hole, p)
    && Distinct(levels)
    && TopOk(levels, hole, p)
  }

  // ------------------------------------------------------- levels as sequences

  lemma {:induction false} BelowConcat(nodes: Nodes, a: Level, b: Level)
    ensures Below(nodes, a + b) == Below(nodes, a) + Below(nodes, b)
  {
    if a == [] {
      assert a + b == b;
    } else {
      assert (a + b)[1..] == a[1..] + b;
      BelowConcat(nodes, a[1..], b);
    }
  }

  lemma BelowHead(nodes: Nodes, l: Level, i: nat)
    requires i < |l|
    ensures Below(nodes, l[i..]) == Run(nodes, l[i]) + Below(nodes, l[i + 1..])
  {
    assert l[i..][1..] == l[i + 1..];
  }

  lemma BelowSplit(nodes: Nodes, l: Level, i: nat)
    requires i < |l|
    ensures Below(nodes, l) == Below(nodes, l[..i]) + Run(nodes, l[i]) + Below(nodes, l[i + 1..])
  {
    assert l == l[..i] + l[i..];
    BelowConcat(nodes, l[..i], l[i..]);
    BelowHead(nodes, l, i);
  }

  ghost predicate SameKids(nodes: Nodes, nodes': Nodes, l: Level) {
    forall i :: 0 <= i < |l| ==> ChildrenOf(nodes, l[i].child) == ChildrenOf(nodes', l[i].child)
  }

  lemma {:induction false} BelowFrame(nodes: Nodes, nodes': Nodes, l: Level)
    requires SameKids(nodes, nodes', l)
    ensures Below(nodes, l) == Below(nodes', l)
  {
    if l != [] {
      assert forall i :: 0 <= i < |l[1..]| ==> l[1..][i] == l[i + 1];
      BelowFrame(nodes, nodes', l[1..]);
    }
  }

  lemma {:induction false} InOrderConcat(nodes: Nodes, a: Level, b: Level, h: nat)
    ensures InOrder(nodes, a + b, h) == InOrder(nodes, a, h) + InOrder(nodes, b, h)
  {
    if a == [] {
      assert a + b == b;
    } else {
      assert (a + b)[1..] == a[1..] + b;
      InOrderConcat(nodes, a[1..], b, h);
    }
  }

  /** Traversal looks only at page ids. */
  lemma {:induction false} InOrderIds(nodes: Nodes, a: Level, b: Level, h: nat)
    requires |a| == |b| && forall i :: 0 <= i < |a| ==> a[i].child == b[i].child
    ensures InOrder(nodes, a, h) == InOrder(nodes, b, h)
  {
    if a != [] {
      assert a[0].child == b[0].child;
      InOrderIds(nodes, a[1..], b[1..], h);
    }
  }

  lemma {:induction false} InOrderLeavesFrame(nodes: Nodes, nodes': Nodes, l: Level)
    requires forall i :: 0 <= i < |l| ==> EntriesOf(nodes, l[i].child) == EntriesOf(nodes', l[i].child)
    ensures InOrder(nodes, l, 0) == InOrder(nodes', l, 0)
  {
    if l != [] {
      assert l[0].child == l[0].child && EntriesOf(nodes, l[0].child) == EntriesOf(nodes', l[0].child);
      assert forall i :: 0 <= i < |l[1..]| ==> l[1..][i] == l[i + 1];
      InOrderLeavesFrame(nodes, nodes', l[1..]);
    }
  }

  /** Traversing a level is traversing the level below it. */
  lemma {:induction false} InOrderDown(nodes: Nodes, l: Level, h: nat)
    ensures InOrder(nodes, l, h + 1) == InOrder(nodes, Below(nodes, l), h)
  {
    if l != [] {
      InOrderDown(nodes, l[1..], h);
      InOrderConcat(nodes, Run(nodes, l[0]), Below(nodes, l[1..]), h);
      InOrderIds(nodes, ChildrenOf(nodes, l[0].child), Run(nodes, l[0]), h);
    }
  }

  lemma TreeLevel(nodes: Nodes, levels: seq<Level>, lim: Limits, hole: nat, p: nat, h: nat)
    requires Tree(nodes, levels, lim, hole, p) && 0 < h < |levels|
    ensures h == hole ==> p + 1 < |levels[h - 1]|
    ensures LevelOk(nodes, levels[h], Known(levels, h - 1, hole, p), lim)
  {
  }

  lemma {:induction false} InOrderLevels(nodes: Nodes, levels: seq<Level>, h: nat)
    requires h < |levels| && forall m :: 0 < m <= h ==> Below(nodes, levels[m]) == levels[m - 1]
    ensures InOrder(nodes, levels[h], h) == InOrder(nodes, levels[0], 0)
  {
    if h > 0 {
      InOrderLevels(nodes, levels, h - 1);
      InOrderDown(nodes, levels[h], h - 1);
    }
  }

  /** In a tree at rest the in-order traversal from any level, the root included, is the leaf
      level read from left to right. */
  lemma InOrderIsLeafLevel(nodes: Nodes, levels: seq<Level>, lim: Limits, h: nat)
    requires Tree(nodes, levels, lim, 0, 0) && h < |levels|
    ensures InOrder(nodes, levels[h], h) == InOrder(nodes, levels[0], 0)
  {
    forall m | 0 < m <= h
      ensures Below(nodes, levels[m]) == levels[m - 1]
    {
      TreeLevel(nodes, levels, lim, 0, 0, m);
    }
    InOrderLevels(nodes, levels, h);
  }

  lemma InOrderSplit(nodes: Nodes, l: Level, i: nat, h: nat)
    requires i < |l|
    ensures InOrder(nodes, l, h) == InOrder(nodes, l[..i], h) + InOrder(nodes, [l[i]], h) + InOrder(nodes, l[i + 1..], h)
  {
    assert l == l[..i] + ([l[i]] + l[i + 1..]);
    InOrderConcat(nodes, l[..i], [l[i]] + l[i + 1..], h);
    InOrderConcat(nodes, [l[i]], l[i + 1..], h);
  }

  // --------------------------------------------------------------- ordering

  /** The bounds of the leaf level ascend. */
  lemma {:induction false} LeafBoundsAscend(nodes: Nodes, l: Level, lim: Limits, i: nat, j: nat)
    requires LeavesOk(nodes, l, lim) && i < j < |l|
    ensures forall kv :: kv in EntriesOf(nodes, l[i].child) ==> l[i].key <= kv.key <= l[j].key
    ensures l[i].key <= l[j].key
    decreases j - i
  {
    assert LeafOk(nodes, l, i, lim) && LeafOk(nodes, l, i + 1, lim);
    if i + 1 < j {
      LeafBoundsAscend(nodes, l, lim, i + 1, j);
    }
  }

  lemma LeafLevelSorted(nodes: Nodes, l: Level, lim: Limits)
    requires LeavesOk(nodes, l, lim)
    ensures SortedKids(l)
  {
    forall i, j | 0 <= i < j < |l|
      ensures l[i].key <= l[j].key
    {
      LeafBoundsAscend(nodes, l, lim, i, j);
    }
  }

  ghost function Offset(nodes: Nodes, l: Level, i: nat): (r: nat)
    requires i <= |l|
  {
    |Below(nodes, l[..i])|
  }

  /** Slot `p` of the level below `l` is a child of slot `i`. */
  ghost predicate Covers(nodes: Nodes, l: Level, i: int, p: int) {
    0 <= i < |l| && Offset(nodes, l, i) <= p < Offset(nodes, l, i) + |ChildrenOf(nodes, l[i].child)|
  }

  lemma ChildSlot(nodes: Nodes, l: Level, i: nat, q: nat)
    requires i < |l| && q < |ChildrenOf(nodes, l[i].child)|
    ensures Offset(nodes, l, i) + q < |Below(nodes, l)|
    ensures var s := Below(nodes, l)[Offset(nodes, l, i) + q];
            var k := ChildrenOf(nodes, l[i].child)[q];
            s.child == k.child && s.key == if q == 0 then l[i].key else k.key
  {
    BelowSplit(nodes, l, i);
  }

  lemma {:induction false} OffsetsAscend(nodes: Nodes, l: Level, i: nat, j: nat)
    requires i < j <= |l|
    ensures Offset(nodes, l, i) + |ChildrenOf(nodes, l[i].child)| <= Offset(nodes, l, j)
    ensures j == i + 1 ==> Offset(nodes, l, i) + |ChildrenOf(nodes, l[i].child)| == Offset(nodes, l, j)
  {
    BelowSplit(nodes, l[..j], i);
    assert l[..j][..i] == l[..i];
    if j == i + 1 {
      assert l[..j][i + 1..] == [];
    }
  }

  /** Sortedness climbs: the bounds of a level are some of the bounds of the level below. */
  lemma UpperSorted(nodes: Nodes, upper: Level, lower: Level, lim: Limits)
    requires LevelOk(nodes, upper, lower, lim) && SortedKids(lower)
    ensures SortedKids(upper)
    ensures upper != [] ==> lower != [] && upper[0].key == lower[0].key
  {
    forall i, j | 0 <= i < j < |upper|
      ensures upper[i].key <= upper[j].key
    {
      assert InternalOk(nodes, upper[i].child, MinKids(upper, lim), lim);
      assert InternalOk(nodes, upper[j].child, MinKids(upper, lim), lim);
      ChildSlot(nodes, upper, i, 0);
      ChildSlot(nodes, upper, j, 0);
      OffsetsAscend(nodes, upper, i, j);
    }
    if upper != [] {
      assert InternalOk(nodes, upper[0].child, MinKids(upper, lim), lim);
      ChildSlot(nodes, upper, 0, 0);
    }
  }

  /** On every level, a split under way or not, the bounds ascend and start at -infinity. */
  lemma {:induction false} LevelsSorted(nodes: Nodes, levels: seq<Level>, lim: Limits, hole: nat, p: nat, h: nat)
    requires Tree(nodes, levels, lim, hole, p) && h < |levels|
    ensures SortedKids(levels[h]) && |levels[h]| > 0 && levels[h][0].key == INVALID_KEY
  {
    if h == 0 {
      LeafLevelSorted(nodes, levels[0], lim);
    } else {
      LevelsSorted(nodes, levels, lim, hole, p, h - 1);
      TreeLevel(nodes, levels, lim, hole, p, h);
      UpperSorted(nodes, levels[h], Known(levels, h - 1, hole, p), lim);
    }
  }

  /** The stored keys of one node ascend, so its binary search is meaningful. */
  lemma NodeSorted(nodes: Nodes, upper: Level, lower: Level, lim: Limits, i: nat)
    requires LevelOk(nodes, upper, lower, lim) && SortedKids(lower) && i < |upper|
    ensures SortedKids(ChildrenOf(nodes, upper[i].child))
  {
    assert InternalOk(nodes, upper[i].child, MinKids(upper, lim), lim);
    var ks := ChildrenOf(nodes, upper[i].child);
    forall a, b | 0 <= a < b < |ks|
      ensures ks[a].key <= ks[b].key
    {
      if a > 0 {
        ChildSlot(nodes, upper, i, a);
        ChildSlot(nodes, upper, i, b);
      }
    }
  }

  /** One step of the descent: the search inside the node finds the slot of the whole level. */
  lemma DescendStep(nodes: Nodes, upper: Level, lower: Level, lim: Limits, i: nat, q: nat, key: Key)
    requires LevelOk(nodes, upper, lower, lim) && SortedKids(lower)
    requires At(upper, i, key) && At(ChildrenOf(nodes, upper[i].child), q, key)
    ensures At(lower, Offset(nodes, upper, i) + q, key)
    ensures Covers(nodes, upper, i, Offset(nodes, upper, i) + q)
    ensures lower[Offset(nodes, upper, i) + q].child == ChildrenOf(nodes, upper[i].child)[q].child
  {
    ChildSlot(nodes, upper, i, q);
    if q + 1 < |ChildrenOf(nodes, upper[i].child)| {
      ChildSlot(nodes, upper, i, q + 1);
    } else if i + 1 < |upper| {
      assert InternalOk(nodes, upper[i + 1].child, MinKids(upper, lim), lim);
      ChildSlot(nodes, upper, i + 1, 0);
      OffsetsAscend(nodes, upper, i, i + 1);
    } else {
      OffsetsAscend(nodes, upper, i, i + 1);
      assert upper[..i + 1] == upper;
    }
  }

  lemma AtUnique(l: Level, i: int, j: int, key: Key)
    requires SortedKids(l) && At(l, i, key) && At(l, j, key)
    ensures i == j
  {
  }
}
