/** What one insert does to the leaf level, and the order of the entries across it. */
module BTreeLeaves {
  import opened Common
  import opened Codec
  import opened BTreeShape
  import opened BTreeInsertion

  /** `es'` is what pushing `kv` onto `es` and sorting by key may give; how entries with equal
      keys are arranged is left open. */
  ghost predicate SortedPush(es: seq<LeafKv>, kv: LeafKv, es': seq<LeafKv>) {
    SortedLeaf(es') && multiset(es') == multiset(es) + multiset{kv}
  }

  lemma SortedPushEnds(es: seq<LeafKv>, kv: LeafKv, es': seq<LeafKv>)
    requires SortedLeaf(es) && |es| > 0 && SortedPush(es, kv, es')
    ensures |es'| == |es| + 1
    ensures es'[0].key == if kv.key < es[0].key then kv.key else es[0].key
    ensures es'[|es'| - 1].key == if kv.key > es[|es| - 1].key then kv.key else es[|es| - 1].key
  {
    assert |multiset(es')| == |multiset(es)| + 1;
    assert es'[0] in multiset(es') && es'[|es'| - 1] in multiset(es');
    assert es[0] in multiset(es') && es[|es| - 1] in multiset(es') && kv in multiset(es');
  }

  function LeafSet(nodes: Nodes, id: PageId, next: PageId, es: seq<LeafKv>): (r: Nodes) {
    nodes[id := Leaf(next, es)]
  }

  /** A leaf with room takes the entry. */
  lemma LeavesGrow(nodes: Nodes, l: Level, lim: Limits, i: nat, kv: LeafKv, es': seq<LeafKv>)
    requires LeavesOk(nodes, l, lim) && At(l, i, kv.key)
    requires forall a, b :: 0 <= a < b < |l| ==> l[a].child != l[b].child
    requires SortedPush(EntriesOf(nodes, l[i].child), kv, es') && |es'| <= lim.leafMax
    ensures l[i].child in nodes && nodes[l[i].child].Leaf?
    ensures LeavesOk(LeafSet(nodes, l[i].child, nodes[l[i].child].next, es'), l, lim)
  {
    assert LeafOk(nodes, l, i, lim);
    var nodes' := LeafSet(nodes, l[i].child, nodes[l[i].child].next, es');
    SortedPushEnds(EntriesOf(nodes, l[i].child), kv, es');
    forall a | 0 <= a < |l|
      ensures LeafOk(nodes', l, a, lim)
    {
      assert LeafOk(nodes, l, a, lim);
    }
  }

  /** The pages after an overfull leaf split into `id` and `rightId`. */
  function SplitLeaf(nodes: Nodes, id: PageId, next: PageId, es: seq<LeafKv>, rightId: PageId): (r: Nodes) {
    nodes[id := Leaf(rightId, es[..|es| / 2])][rightId := Leaf(next, es[|es| / 2..])]
  }

  lemma SortedHalves(es: seq<LeafKv>, mid: nat)
    requires SortedLeaf(es) && mid <= |es|
    ensures SortedLeaf(es[..mid]) && SortedLeaf(es[mid..])
  {
  }

  /** A full leaf splits in half around the new entry; the right half is linked after the left. */
  lemma LeavesSplit(nodes: Nodes, l: Level, lim: Limits, i: nat, kv: LeafKv, es': seq<LeafKv>, rightId: PageId)
    requires LimitsOk(lim) && LeavesOk(nodes, l, lim) && At(l, i, kv.key)
    requires forall a, b :: 0 <= a < b < |l| ==> l[a].child != l[b].child
    requires forall a :: 0 <= a < |l| ==> l[a].child != rightId
    requires SortedPush(EntriesOf(nodes, l[i].child), kv, es') && |es'| > lim.leafMax
    ensures l[i].child in nodes && nodes[l[i].child].Leaf? && |es'| == lim.leafMax + 1
    ensures LeavesOk(SplitLeaf(nodes, l[i].child, nodes[l[i].child].next, es', rightId),
              InsertAfter(l, i, InternalKv(es'[|es'| / 2].key, rightId)), lim)
  {
    assert LeafOk(nodes, l, i, lim);
    var nodes' := SplitLeaf(nodes, l[i].child, nodes[l[i].child].next, es', rightId);
    var up := InternalKv(es'[|es'| / 2].key, rightId);
    var l' := InsertAfter(l, i, up);
    SortedPushEnds(EntriesOf(nodes, l[i].child), kv, es');
    SortedHalves(es', |es'| / 2);
    forall a | 0 <= a < |l'|
      ensures LeafOk(nodes', l', a, lim)
    {
      if a < i {
        assert LeafOk(nodes, l, a, lim);
        assert l'[a] == l[a] && l'[a + 1] == l[a + 1];
      } else if a == i {
        assert l'[a] == l[a] && l'[a + 1] == up;
      } else if a == i + 1 {
        assert l'[a] == up && (a + 1 < |l'| ==> l'[a + 1] == l[i + 1]);
      } else {
        assert LeafOk(nodes, l, a - 1, lim);
        assert l'[a] == l[a - 1] && (a + 1 < |l'| ==> l'[a + 1] == l[a]);
      }
    }
  }

  lemma UpperLevelsKept(nodes: Nodes, nodes': Nodes, levels: seq<Level>, lim: Limits, i: nat, fresh_: PageId)
    requires Tree(nodes, levels, lim, 0, 0) && i < |levels[0]|
    requires fresh_ == levels[0][i].child || Unused(levels, fresh_)
    requires OnlyChanged(nodes, nodes', levels[0][i].child, fresh_)
    ensures forall m :: 0 < m < |levels| ==> LevelOk(nodes', levels[m], levels[m - 1], lim)
  {
    forall m | 0 < m < |levels|
      ensures LevelOk(nodes', levels[m], levels[m - 1], lim)
    {
      TreeLevel(nodes, levels, lim, 0, 0, m);
      ElsewhereAgrees(nodes, nodes', levels, 0, i, fresh_, m);
      LevelFrame(nodes, nodes', levels[m], levels[m - 1], lim);
    }
  }

  lemma LinksFromLevels(nodes: Nodes, levels: seq<Level>, lim: Limits)
    requires HoleOk(levels, 0, 0)
    requires forall m :: 0 < m < |levels| ==> LevelOk(nodes, levels[m], levels[m - 1], lim)
    ensures LinksOk(nodes, levels, lim, 0, 0)
  {
  }

  lemma InOrderOne(nodes: Nodes, x: InternalKv)
    ensures InOrder(nodes, [x], 0) == EntriesOf(nodes, x.child)
  {
  }

  ghost predicate OtherEntriesKept(nodes: Nodes, nodes': Nodes, l: Level, i: nat) {
    forall a :: 0 <= a < |l| && a != i ==> EntriesOf(nodes', l[a].child) == EntriesOf(nodes, l[a].child)
  }

  /** Replacing slot `i` of the leaf level by `repl` replaces just its entries in the traversal. */
  lemma InOrderReplace(nodes: Nodes, nodes': Nodes, l: Level, i: nat, repl: Level)
    requires i < |l|
    requires OtherEntriesKept(nodes, nodes', l, i)
    ensures InOrder(nodes, l, 0) == InOrder(nodes, l[..i], 0) + EntriesOf(nodes, l[i].child) + InOrder(nodes, l[i + 1..], 0)
    ensures InOrder(nodes', l[..i] + repl + l[i + 1..], 0)
            == InOrder(nodes, l[..i], 0) + InOrder(nodes', repl, 0) + InOrder(nodes, l[i + 1..], 0)
  {
    InOrderSplit(nodes, l, i, 0);
    InOrderOne(nodes, l[i]);
    InOrderConcat(nodes', l[..i] + repl, l[i + 1..], 0);
    InOrderConcat(nodes', l[..i], repl, 0);
    InOrderLeavesFrame(nodes, nodes', l[..i]);
    var rest := l[i + 1..];
    assert forall a :: 0 <= a < |rest| ==> rest[a] == l[i + 1 + a];
    InOrderLeavesFrame(nodes, nodes', rest);
  }

  lemma MiddleMultiset<T>(a: seq<T>, b: seq<T>, b': seq<T>, c: seq<T>, x: T)
    requires multiset(b') == multiset(b) + multiset{x}
    ensures multiset(a + b' + c) == multiset(a + b + c) + multiset{x}
  {
  }

  /** If the new entries of slot `i` are its old ones and `kv`, so it is for the whole level. */
  lemma OneEntryAdded(nodes: Nodes, nodes': Nodes, l: Level, i: nat, repl: Level, kv: LeafKv)
    requires i < |l| && OtherEntriesKept(nodes, nodes', l, i)
    requires multiset(InOrder(nodes', repl, 0)) == multiset(EntriesOf(nodes, l[i].child)) + multiset{kv}
    ensures multiset(InOrder(nodes', l[..i] + repl + l[i + 1..], 0)) == multiset(InOrder(nodes, l, 0)) + multiset{kv}
  {
    InOrderReplace(nodes, nodes', l, i, repl);
    MiddleMultiset(InOrder(nodes, l[..i], 0), EntriesOf(nodes, l[i].child), InOrder(nodes', repl, 0),
                   InOrder(nodes, l[i + 1..], 0), kv);
  }

  lemma ReplaceSelf<T>(s: seq<T>, i: nat)
    requires i < |s|
    ensures s == s[..i] + [s[i]] + s[i + 1..]
  {
  }

  lemma LeafGrowEntries(nodes: Nodes, l: Level, i: nat, next: PageId, kv: LeafKv, es': seq<LeafKv>)
    requires i < |l| && SortedPush(EntriesOf(nodes, l[i].child), kv, es')
    requires forall a, b :: 0 <= a < b < |l| ==> l[a].child != l[b].child
    ensures multiset(InOrder(LeafSet(nodes, l[i].child, next, es'), l, 0)) == multiset(InOrder(nodes, l, 0)) + multiset{kv}
  {
    var nodes' := LeafSet(nodes, l[i].child, next, es');
    assert OtherEntriesKept(nodes, nodes', l, i);
    InOrderOne(nodes', l[i]);
    ReplaceSelf(l, i);
    OneEntryAdded(nodes, nodes', l, i, [l[i]], kv);
  }

  /** Inserting into a leaf that has room. */
  lemma LeafGrowStep(nodes: Nodes, levels: seq<Level>, lim: Limits, i: nat, kv: LeafKv, es': seq<LeafKv>)
    requires LimitsOk(lim) && Tree(nodes, levels, lim, 0, 0) && At(levels[0], i, kv.key)
    requires SortedPush(EntriesOf(nodes, levels[0][i].child), kv, es') && |es'| <= lim.leafMax
    ensures levels[0][i].child in nodes && nodes[levels[0][i].child].Leaf?
    ensures var nodes' := LeafSet(nodes, levels[0][i].child, nodes[levels[0][i].child].next, es');
            && Tree(nodes', levels, lim, 0, 0)
            && multiset(InOrder(nodes', levels[0], 0)) == multiset(InOrder(nodes, levels[0], 0)) + multiset{kv}
  {
    var l, x := levels[0], levels[0][i];
    LevelPagesDistinct(levels, 0);
    LeavesGrow(nodes, l, lim, i, kv, es');
    var nodes' := LeafSet(nodes, x.child, nodes[x.child].next, es');
    UpperLevelsKept(nodes, nodes', levels, lim, i, x.child);
    LinksFromLevels(nodes', levels, lim);
    LeafGrowEntries(nodes, l, i, nodes[x.child].next, kv, es');
  }

  /** Inserting into a full leaf: the right half waits for its parent to learn of it. */
  lemma LeafSplitStep(nodes: Nodes, levels: seq<Level>, lim: Limits, i: nat, kv: LeafKv, es': seq<LeafKv>, rightId: PageId)
    requires LimitsOk(lim) && Tree(nodes, levels, lim, 0, 0) && At(levels[0], i, kv.key) && Unused(levels, rightId)
    requires SortedPush(EntriesOf(nodes, levels[0][i].child), kv, es') && |es'| > lim.leafMax
    ensures levels[0][i].child in nodes && nodes[levels[0][i].child].Leaf? && |es'| == lim.leafMax + 1
    ensures var nodes' := SplitLeaf(nodes, levels[0][i].child, nodes[levels[0][i].child].next, es', rightId);
            var levels' := levels[0 := InsertAfter(levels[0], i, InternalKv(es'[|es'| / 2].key, rightId))];
            && Tree(nodes', levels', lim, 1, i)
            && multiset(InOrder(nodes', levels'[0], 0)) == multiset(InOrder(nodes, levels[0], 0)) + multiset{kv}
  {
    var l, x := levels[0], levels[0][i];
    LevelPagesDistinct(levels, 0);
    LeavesSplit(nodes, l, lim, i, kv, es', rightId);
    var nodes' := SplitLeaf(nodes, x.child, nodes[x.child].next, es', rightId);
    var up := InternalKv(es'[|es'| / 2].key, rightId);
    UpperLevelsKept(nodes, nodes', levels, lim, i, rightId);
    InsertKeepsDistinct(levels, 0, i, up);
    LeafSplitLinks(nodes', levels, lim, i, up);
    LeafSplitEntries(nodes, l, i, nodes[x.child].next, kv, es', up);
  }

  lemma LeafSplitLinks(nodes: Nodes, levels: seq<Level>, lim: Limits, i: nat, up: InternalKv)
    requires HoleOk(levels, 0, 0) && TopOk(levels, 0, 0) && i < |levels[0]|
    requires forall m :: 0 < m < |levels| ==> LevelOk(nodes, levels[m], levels[m - 1], lim)
    ensures var levels' := levels[0 := InsertAfter(levels[0], i, up)];
            HoleOk(levels', 1, i) && TopOk(levels', 1, i) && LinksOk(nodes, levels', lim, 1, i)
  {
  }

  lemma SplitEntries(nodes: Nodes, x: InternalKv, next: PageId, es: seq<LeafKv>, up: InternalKv)
    requires x.child != up.child
    ensures InOrder(SplitLeaf(nodes, x.child, next, es, up.child), [x, up], 0) == es
  {
    var nodes' := SplitLeaf(nodes, x.child, next, es, up.child);
    InOrderTwo(nodes', x, up);
    assert es == es[..|es| / 2] + es[|es| / 2..];
  }

  lemma InOrderTwo(nodes: Nodes, x: InternalKv, y: InternalKv)
    ensures InOrder(nodes, [x, y], 0) == EntriesOf(nodes, x.child) + EntriesOf(nodes, y.child)
  {
    InOrderConcat(nodes, [x], [y], 0);
    assert [x] + [y] == [x, y];
    InOrderOne(nodes, x);
    InOrderOne(nodes, y);
  }

  lemma LeafSplitEntries(nodes: Nodes, l: Level, i: nat, next: PageId, kv: LeafKv, es': seq<LeafKv>, up: InternalKv)
    requires i < |l| && SortedPush(EntriesOf(nodes, l[i].child), kv, es')
    requires forall a, b :: 0 <= a < b < |l| ==> l[a].child != l[b].child
    requires forall a :: 0 <= a < |l| ==> l[a].child != up.child
    ensures multiset(InOrder(SplitLeaf(nodes, l[i].child, next, es', up.child), InsertAfter(l, i, up), 0))
            == multiset(InOrder(nodes, l, 0)) + multiset{kv}
  {
    var nodes' := SplitLeaf(nodes, l[i].child, next, es', up.child);
    assert OtherEntriesKept(nodes, nodes', l, i);
    SplitEntries(nodes, l[i], next, es', up);
    InsertAfterParts(l, i, up);
    OneEntryAdded(nodes, nodes', l, i, [l[i], up], kv);
  }

  /** The first insert: one leaf, alone on its level. */
  lemma FirstLeaf(nodes: Nodes, lim: Limits, id: PageId, kv: LeafKv)
    requires LimitsOk(lim) && id in nodes && nodes[id] == Leaf(INVALID_PAGE_ID, [kv])
    ensures Tree(nodes, [[InternalKv(INVALID_KEY, id)]], lim, 0, 0)
    ensures InOrder(nodes, [InternalKv(INVALID_KEY, id)], 0) == [kv]
  {
  }
}
