/** What one insert does to the tree, step by step: a leaf grows or splits, an internal node
    takes the pending separator or splits in turn, or a new root is made. */
module BTreeInsertion {
  import opened Common
  import opened Codec
  import opened BTreeShape

  ghost predicate Unused(levels: seq<Level>, id: PageId) {
    forall a, i :: 0 <= a < |levels| && 0 <= i < |levels[a]| ==> levels[a][i].child != id
  }

  lemma InsertKeepsDistinct(levels: seq<Level>, j: nat, i: nat, x: InternalKv)
    requires Distinct(levels) && Unused(levels, x.child)
    requires j < |levels| && i < |levels[j]|
    ensures Distinct(levels[j := InsertAfter(levels[j], i, x)])
  {
    var l := InsertAfter(levels[j], i, x);
    var levels': seq<Level> := levels[j := l];
    forall a: nat, u: nat, b: nat, v: nat {:trigger PageAt(levels', a, u), PageAt(levels', b, v)}
      | a < |levels'| && u < |levels'[a]| && b < |levels'| && v < |levels'[b]| && PageAt(levels', a, u) == PageAt(levels', b, v)
      ensures a == b && u == v
    {
      var u' := if a == j && u > i then u - 1 else u;
      var v' := if b == j && v > i then v - 1 else v;
      assert (a, u) != (j, i + 1) ==> levels'[a][u] == levels[a][u'];
      assert (b, v) != (j, i + 1) ==> levels'[b][v] == levels[b][v'];
      if (a, u) != (j, i + 1) && (b, v) != (j, i + 1) {
        assert PageAt(levels, a, u') == PageAt(levels, b, v');
      }
    }
  }

  // ------------------------------------------------------- internal nodes

  /** Rewriting one run of a level leaves the runs around it alone. */
  lemma BelowReplace(nodes: Nodes, nodes': Nodes, l: Level, i: nat, repl: Level)
    requires i < |l| && SameKids(nodes, nodes', l[..i]) && SameKids(nodes, nodes', l[i + 1..])
    ensures Below(nodes', l[..i] + repl + l[i + 1..])
            == Below(nodes, l[..i]) + Below(nodes', repl) + Below(nodes, l[i + 1..])
  {
    BelowConcat(nodes', l[..i] + repl, l[i + 1..]);
    BelowConcat(nodes', l[..i], repl);
    BelowFrame(nodes, nodes', l[..i]);
    BelowFrame(nodes, nodes', l[i + 1..]);
  }

  lemma InsertAfterParts<T>(s: seq<T>, i: nat, x: T)
    requires i < |s|
    ensures InsertAfter(s, i, x) == s[..i] + [s[i], x] + s[i + 1..]
  {
  }

  lemma InsertInside<T>(a: seq<T>, r: seq<T>, b: seq<T>, q: nat, x: T)
    requires q < |r|
    ensures a + InsertAfter(r, q, x) + b == InsertAfter(a + r + b, |a| + q, x)
  {
  }

  lemma InsertRemoved<T>(s: seq<T>, p: nat)
    requires p + 1 < |s|
    ensures InsertAfter(RemoveAt(s, p + 1), p, s[p + 1]) == s
  {
  }

  /** Once the run of slot `i` has the pending slot in it, the level below is whole again. */
  lemma RunFilled(nodes: Nodes, upper: Level, lower: Level, i: nat, p: nat, q: nat)
    requires i < |upper| && p + 1 < |lower| && q < |Run(nodes, upper[i])|
    requires Below(nodes, upper) == RemoveAt(lower, p + 1) && p == Offset(nodes, upper, i) + q
    ensures Below(nodes, upper[..i]) + InsertAfter(Run(nodes, upper[i]), q, lower[p + 1]) + Below(nodes, upper[i + 1..])
            == lower
  {
    BelowSplit(nodes, upper, i);
    var a, r, b := Below(nodes, upper[..i]), Run(nodes, upper[i]), Below(nodes, upper[i + 1..]);
    InsertInside(a, r, b, q, lower[p + 1]);
    InsertRemoved(lower, p);
  }

  /** The nodes of `upper` other than slot `i` are the same pages in `nodes'`. */
  ghost predicate OthersKept(nodes: Nodes, nodes': Nodes, upper: Level, i: nat) {
    forall a :: 0 <= a < |upper| && a != i && upper[a].child in nodes ==>
                  upper[a].child in nodes' && nodes'[upper[a].child] == nodes[upper[a].child]
  }

  lemma OthersOk(nodes: Nodes, nodes': Nodes, upper: Level, i: nat, repl: Level, n: nat, lim: Limits)
    requires i < |upper| && OthersKept(nodes, nodes', upper, i)
    requires |upper| > 1 ==> AllInternalOk(nodes, upper, n, lim)
    requires AllInternalOk(nodes', repl, n, lim)
    ensures AllInternalOk(nodes', upper[..i] + repl + upper[i + 1..], n, lim)
  {
  }

  /** Replacing slot `i` by slots whose runs hold the old run and the pending slot repairs the level. */
  lemma BelowRefilled(nodes: Nodes, nodes': Nodes, upper: Level, lower: Level, i: nat, p: nat, q: nat, repl: Level)
    requires p + 1 < |lower| && Below(nodes, upper) == RemoveAt(lower, p + 1)
    requires i < |upper| && q < |Run(nodes, upper[i])| && p == Offset(nodes, upper, i) + q
    requires OthersKept(nodes, nodes', upper, i)
    requires forall a :: 0 <= a < |upper| ==> upper[a].child in nodes
    requires Below(nodes', repl) == InsertAfter(Run(nodes, upper[i]), q, lower[p + 1])
    ensures Below(nodes', upper[..i] + repl + upper[i + 1..]) == lower
  {
    assert SameKids(nodes, nodes', upper[..i]);
    var rest := upper[i + 1..];
    forall a | 0 <= a < |rest|
      ensures ChildrenOf(nodes, rest[a].child) == ChildrenOf(nodes', rest[a].child)
    {
      assert rest[a] == upper[i + 1 + a];
    }
    BelowReplace(nodes, nodes', upper, i, repl);
    RunFilled(nodes, upper, lower, i, p, q);
  }

  /** A node with room takes the pending separator. */
  lemma LevelGrow(nodes: Nodes, upper: Level, lower: Level, lim: Limits, i: nat, p: nat, q: nat)
    requires LimitsOk(lim) && p + 1 < |lower| && LevelOk(nodes, upper, RemoveAt(lower, p + 1), lim)
    requires forall a, b :: 0 <= a < b < |upper| ==> upper[a].child != upper[b].child
    requires i < |upper| && q < |ChildrenOf(nodes, upper[i].child)| < lim.internalMax && p == Offset(nodes, upper, i) + q
    ensures var id := upper[i].child;
            LevelOk(nodes[id := Internal(InsertAfter(ChildrenOf(nodes, id), q, lower[p + 1]))], upper, lower, lim)
  {
    var x := upper[i];
    var ks' := InsertAfter(ChildrenOf(nodes, x.child), q, lower[p + 1]);
    var nodes' := nodes[x.child := Internal(ks')];
    assert InternalOk(nodes, x.child, MinKids(upper, lim), lim);
    BelowOne(nodes', x);
    assert upper == upper[..i] + [x] + upper[i + 1..];
    assert Run(nodes', x) == InsertAfter(Run(nodes, x), q, lower[p + 1]);
    BelowRefilled(nodes, nodes', upper, lower, i, p, q, [x]);
    OthersOk(nodes, nodes', upper, i, [x], MinKids(upper, lim), lim);
  }

  /** The two halves of a split node hold, in order, what the overfull node held. */
  lemma SplitRuns(nodes: Nodes, nodes': Nodes, x: InternalKv, up: InternalKv, ks': Level, mid: nat, q: nat, new_: InternalKv)
    requires q < |ChildrenOf(nodes, x.child)| && ks' == InsertAfter(ChildrenOf(nodes, x.child), q, new_)
    requires 0 < mid < |ks'| && up.key == ks'[mid].key
    requires ChildrenOf(nodes', x.child) == ks'[..mid]
    requires ChildrenOf(nodes', up.child) == ks'[mid..][0 := InternalKv(INVALID_KEY, ks'[mid].child)]
    ensures Below(nodes', [x, up]) == InsertAfter(Run(nodes, x), q, new_)
  {
    assert Run(nodes', up) == ks'[mid..];
    var head := ks'[0 := InternalKv(x.key, ks'[0].child)];
    assert Run(nodes', x) == head[..mid];
    assert head == head[..mid] + head[mid..] && head[mid..] == ks'[mid..];
    assert InsertAfter(Run(nodes, x), q, new_) == head;
    BelowConcat(nodes', [x], [up]);
    assert [x] + [up] == [x, up];
    BelowOne(nodes', x);
    BelowOne(nodes', up);
  }

  lemma BelowOne(nodes: Nodes, x: InternalKv)
    ensures Below(nodes, [x]) == Run(nodes, x)
  {
  }

  /** The right half of an overfull node; its first key becomes a placeholder. */
  function RightHalf(ks: Level): (r: Level)
    requires |ks| >= 2
  {
    ks[|ks| / 2..][0 := InternalKv(INVALID_KEY, ks[|ks| / 2].child)]
  }

  function LeftHalf(ks: Level): (r: Level) {
    ks[..|ks| / 2]
  }

  /** The pages after splitting overfull node `id` with entries `ks` into `id` and `rightId`. */
  function SplitNode(nodes: Nodes, id: PageId, ks: Level, rightId: PageId): (r: Nodes)
    requires |ks| >= 2
  {
    nodes[id := Internal(LeftHalf(ks))][rightId := Internal(RightHalf(ks))]
  }

  lemma SplitKeepsOthers(nodes: Nodes, upper: Level, i: nat, ks: Level, rightId: PageId)
    requires i < |upper| && |ks| >= 2
    requires forall a, b :: 0 <= a < b < |upper| ==> upper[a].child != upper[b].child
    requires forall a :: 0 <= a < |upper| ==> upper[a].child != rightId
    ensures OthersKept(nodes, SplitNode(nodes, upper[i].child, ks, rightId), upper, i)
  {
  }

  lemma HalvesOk(nodes: Nodes, x: InternalKv, ks: Level, up: InternalKv, lim: Limits)
    requires LimitsOk(lim) && |ks| == lim.internalMax + 1 && ks[0].key == INVALID_KEY
    requires x.child != up.child
    ensures AllInternalOk(SplitNode(nodes, x.child, ks, up.child), [x, up], (lim.internalMax + 1) / 2, lim)
  {
  }

  /** A full node splits in half around the pending separator and passes its middle key up. */
  lemma LevelSplit(nodes: Nodes, upper: Level, lower: Level, lim: Limits, i: nat, p: nat, q: nat, ks': Level, up: InternalKv)
    requires LimitsOk(lim) && p + 1 < |lower| && LevelOk(nodes, upper, RemoveAt(lower, p + 1), lim)
    requires forall a, b :: 0 <= a < b < |upper| ==> upper[a].child != upper[b].child
    requires forall a :: 0 <= a < |upper| ==> upper[a].child != up.child
    requires i < |upper| && q < |ChildrenOf(nodes, upper[i].child)| == lim.internalMax && p == Offset(nodes, upper, i) + q
    requires ks' == InsertAfter(ChildrenOf(nodes, upper[i].child), q, lower[p + 1]) && up.key == ks'[|ks'| / 2].key
    ensures LevelOk(SplitNode(nodes, upper[i].child, ks', up.child), InsertAfter(upper, i, up), lower, lim)
  {
    var x := upper[i];
    var nodes' := SplitNode(nodes, x.child, ks', up.child);
    assert InternalOk(nodes, x.child, MinKids(upper, lim), lim);
    HalvesOk(nodes, x, ks', up, lim);
    SplitRuns(nodes, nodes', x, up, ks', |ks'| / 2, q, lower[p + 1]);
    InsertAfterParts(upper, i, up);
    SplitKeepsOthers(nodes, upper, i, ks', up.child);
    BelowRefilled(nodes, nodes', upper, lower, i, p, q, [x, up]);
    OthersOk(nodes, nodes', upper, i, [x, up], (lim.internalMax + 1) / 2, lim);
  }

  // ------------------------------------------------------------- whole-tree steps

  ghost predicate AgreeOn(nodes: Nodes, nodes': Nodes, l: Level) {
    forall a :: 0 <= a < |l| && l[a].child in nodes ==> l[a].child in nodes' && nodes'[l[a].child] == nodes[l[a].child]
  }

  lemma LevelFrame(nodes: Nodes, nodes': Nodes, upper: Level, lower: Level, lim: Limits)
    requires AgreeOn(nodes, nodes', upper) && LevelOk(nodes, upper, lower, lim)
    ensures LevelOk(nodes', upper, lower, lim)
  {
    forall a | 0 <= a < |upper|
      ensures InternalOk(nodes', upper[a].child, MinKids(upper, lim), lim)
      ensures ChildrenOf(nodes, upper[a].child) == ChildrenOf(nodes', upper[a].child)
    {
      assert InternalOk(nodes, upper[a].child, MinKids(upper, lim), lim);
    }
    BelowFrame(nodes, nodes', upper);
  }

  lemma LeavesFrame(nodes: Nodes, nodes': Nodes, l: Level, lim: Limits)
    requires AgreeOn(nodes, nodes', l) && LeavesOk(nodes, l, lim)
    ensures LeavesOk(nodes', l, lim) && InOrder(nodes', l, 0) == InOrder(nodes, l, 0)
  {
    forall i | 0 <= i < |l|
      ensures LeafOk(nodes', l, i, lim) && EntriesOf(nodes, l[i].child) == EntriesOf(nodes', l[i].child)
    {
      assert LeafOk(nodes, l, i, lim);
    }
    InOrderLeavesFrame(nodes, nodes', l);
  }

  /** `nodes'` differs from `nodes` at most on page `id` and on the new page `fresh_`. */
  ghost predicate OnlyChanged(nodes: Nodes, nodes': Nodes, id: PageId, fresh_: PageId) {
    forall x :: x in nodes && x != id && x != fresh_ ==> x in nodes' && nodes'[x] == nodes[x]
  }

  lemma ElsewhereAgrees(nodes: Nodes, nodes': Nodes, levels: seq<Level>, j: nat, i: nat, fresh_: PageId, m: nat)
    requires Distinct(levels) && j < |levels| && i < |levels[j]| && m < |levels| && m != j
    requires fresh_ == levels[j][i].child || Unused(levels, fresh_)
    requires OnlyChanged(nodes, nodes', levels[j][i].child, fresh_)
    ensures AgreeOn(nodes, nodes', levels[m])
  {
    forall a | 0 <= a < |levels[m]|
      ensures levels[m][a].child != levels[j][i].child && levels[m][a].child != fresh_
    {
      assert PageAt(levels, m, a) != PageAt(levels, j, i);
    }
  }

  /** Every level but `j` survives a change to the pages of level `j`. */
  lemma OtherLevelsKept(nodes: Nodes, nodes': Nodes, levels: seq<Level>, lim: Limits, j: nat, p: nat, i: nat, fresh_: PageId)
    requires Tree(nodes, levels, lim, j, p) && 0 < j < |levels| && i < |levels[j]|
    requires fresh_ == levels[j][i].child || Unused(levels, fresh_)
    requires OnlyChanged(nodes, nodes', levels[j][i].child, fresh_)
    ensures LeavesOk(nodes', levels[0], lim) && InOrder(nodes', levels[0], 0) == InOrder(nodes, levels[0], 0)
    ensures forall m :: 0 < m < |levels| && m != j ==> LevelOk(nodes', levels[m], levels[m - 1], lim)
  {
    ElsewhereAgrees(nodes, nodes', levels, j, i, fresh_, 0);
    LeavesFrame(nodes, nodes', levels[0], lim);
    forall m | 0 < m < |levels| && m != j
      ensures LevelOk(nodes', levels[m], levels[m - 1], lim)
    {
      TreeLevel(nodes, levels, lim, j, p, m);
      ElsewhereAgrees(nodes, nodes', levels, j, i, fresh_, m);
      LevelFrame(nodes, nodes', levels[m], levels[m - 1], lim);
    }
  }

  lemma LevelPagesDistinct(levels: seq<Level>, j: nat)
    requires Distinct(levels) && j < |levels|
    ensures forall a, b :: 0 <= a < b < |levels[j]| ==> levels[j][a].child != levels[j][b].child
  {
    forall a, b | 0 <= a < b < |levels[j]|
      ensures levels[j][a].child != levels[j][b].child
    {
      assert PageAt(levels, j, a) != PageAt(levels, j, b);
    }
  }

  /** The pages after node `id` took slot `x` right after its entry `q`. */
  function GrowNode(nodes: Nodes, id: PageId, ks: Level, q: nat, x: InternalKv): (r: Nodes)
    requires q < |ks|
  {
    nodes[id := Internal(InsertAfter(ks, q, x))]
  }

  lemma AllLevelsOk(nodes: Nodes, levels: seq<Level>, lim: Limits, j: nat)
    requires 0 < j < |levels| && LevelOk(nodes, levels[j], levels[j - 1], lim)
    requires forall m :: 0 < m < |levels| && m != j ==> LevelOk(nodes, levels[m], levels[m - 1], lim)
    ensures LinksOk(nodes, levels, lim, 0, 0)
  {
    forall m | 0 <= m < |levels| - 1
      ensures LevelOk(nodes, levels[m + 1], Known(levels, m, 0, 0), lim)
    {
      assert m + 1 != j ==> LevelOk(nodes, levels[m + 1], levels[m + 1 - 1], lim);
    }
  }

  /** The node above the hole has room: it takes the pending separator and the tree is at rest. */
  lemma GrowStep(nodes: Nodes, levels: seq<Level>, lim: Limits, j: nat, p: nat, i: nat, q: nat)
    requires LimitsOk(lim) && Tree(nodes, levels, lim, j, p) && 0 < j < |levels| && i < |levels[j]|
    requires q < |ChildrenOf(nodes, levels[j][i].child)| < lim.internalMax && p == Offset(nodes, levels[j], i) + q
    ensures var id := levels[j][i].child;
            var nodes' := GrowNode(nodes, id, ChildrenOf(nodes, id), q, levels[j - 1][p + 1]);
            Tree(nodes', levels, lim, 0, 0) && InOrder(nodes', levels[0], 0) == InOrder(nodes, levels[0], 0)
  {
    var id := levels[j][i].child;
    var nodes' := GrowNode(nodes, id, ChildrenOf(nodes, id), q, levels[j - 1][p + 1]);
    TreeLevel(nodes, levels, lim, j, p, j);
    LevelPagesDistinct(levels, j);
    LevelGrow(nodes, levels[j], levels[j - 1], lim, i, p, q);
    OtherLevelsKept(nodes, nodes', levels, lim, j, p, i, id);
    AllLevelsOk(nodes', levels, lim, j);
  }

  /** The node above the hole is full: it splits, and the hole moves one level up. */
  lemma SplitStep(nodes: Nodes, levels: seq<Level>, lim: Limits, j: nat, p: nat, i: nat, q: nat, ks': Level, rightId: PageId)
    requires LimitsOk(lim) && Tree(nodes, levels, lim, j, p) && 0 < j < |levels| && i < |levels[j]|
    requires q < |ChildrenOf(nodes, levels[j][i].child)| == lim.internalMax && p == Offset(nodes, levels[j], i) + q
    requires ks' == InsertAfter(ChildrenOf(nodes, levels[j][i].child), q, levels[j - 1][p + 1]) && Unused(levels, rightId)
    ensures var nodes' := SplitNode(nodes, levels[j][i].child, ks', rightId);
            var levels' := levels[j := InsertAfter(levels[j], i, InternalKv(ks'[|ks'| / 2].key, rightId))];
            Tree(nodes', levels', lim, j + 1, i) && InOrder(nodes', levels'[0], 0) == InOrder(nodes, levels[0], 0)
  {
    var id := levels[j][i].child;
    var nodes' := SplitNode(nodes, id, ks', rightId);
    var up := InternalKv(ks'[|ks'| / 2].key, rightId);
    var levels' := levels[j := InsertAfter(levels[j], i, up)];
    TreeLevel(nodes, levels, lim, j, p, j);
    LevelPagesDistinct(levels, j);
    LevelSplit(nodes, levels[j], levels[j - 1], lim, i, p, q, ks', up);
    OtherLevelsKept(nodes, nodes', levels, lim, j, p, i, rightId);
    InsertKeepsDistinct(levels, j, i, up);
    SplitLevelsOk(nodes', levels, lim, j, i, up);
    SplitTopOk(levels, j, p, i, up);
  }

  lemma SplitTopOk(levels: seq<Level>, j: nat, p: nat, i: nat, up: InternalKv)
    requires HoleOk(levels, j, p) && TopOk(levels, j, p) && 0 < j < |levels| && i < |levels[j]|
    ensures var levels' := levels[j := InsertAfter(levels[j], i, up)];
            HoleOk(levels', j + 1, i) && TopOk(levels', j + 1, i)
  {
  }

  lemma SplitLevelsOk(nodes: Nodes, levels: seq<Level>, lim: Limits, j: nat, i: nat, up: InternalKv)
    requires 0 < j < |levels| && i < |levels[j]|
    requires LevelOk(nodes, InsertAfter(levels[j], i, up), levels[j - 1], lim)
    requires forall m :: 0 < m < |levels| && m != j ==> LevelOk(nodes, levels[m], levels[m - 1], lim)
    ensures var levels' := levels[j := InsertAfter(levels[j], i, up)];
            HoleOk(levels', j + 1, i) && LinksOk(nodes, levels', lim, j + 1, i)
  {
  }

  lemma RemoveInserted<T>(s: seq<T>, i: nat, x: T)
    requires i < |s|
    ensures RemoveAt(InsertAfter(s, i, x), i + 1) == s && InsertAfter(s, i, x)[i + 1] == x
    ensures InsertAfter(s, i, x)[i] == s[i]
  {
  }

  /** The root itself split: a new root over both halves makes the tree one level taller. */
  lemma RootStep(nodes: Nodes, levels: seq<Level>, lim: Limits, rootId: PageId)
    requires LimitsOk(lim) && Tree(nodes, levels, lim, |levels|, 0) && Unused(levels, rootId)
    ensures var top := levels[|levels| - 1];
            var nodes' := nodes[rootId := Internal([InternalKv(INVALID_KEY, top[0].child), top[1]])];
            var levels' := levels + [[InternalKv(INVALID_KEY, rootId)]];
            Tree(nodes', levels', lim, 0, 0) && InOrder(nodes', levels'[0], 0) == InOrder(nodes, levels[0], 0)
  {
    var h := |levels|;
    var top := levels[h - 1];
    var root := InternalKv(INVALID_KEY, rootId);
    var nodes' := nodes[rootId := Internal([InternalKv(INVALID_KEY, top[0].child), top[1]])];
    var levels' := levels + [[root]];
    LevelsSorted(nodes, levels, lim, h, 0, h - 1);
    assert AgreeOn(nodes, nodes', levels[0]);
    LeavesFrame(nodes, nodes', levels[0], lim);
    assert LevelOk(nodes', [root], top, lim) by {
      BelowOne(nodes', root);
      assert Run(nodes', root) == top;
    }
    forall m | 0 <= m < |levels'| - 1
      ensures LevelOk(nodes', levels'[m + 1], Known(levels', m, 0, 0), lim)
    {
      if m + 1 < h {
        TreeLevel(nodes, levels, lim, h, 0, m + 1);
        assert AgreeOn(nodes, nodes', levels[m + 1]);
        LevelFrame(nodes, nodes', levels[m + 1], levels[m], lim);
      }
    }
    forall a: nat, u: nat, b: nat, v: nat {:trigger PageAt(levels', a, u), PageAt(levels', b, v)}
      | a < |levels'| && u < |levels'[a]| && b < |levels'| && v < |levels'[b]| && PageAt(levels', a, u) == PageAt(levels', b, v)
      ensures a == b && u == v
    {
      if a < h && b < h {
        assert PageAt(levels, a, u) == PageAt(levels, b, v);
      }
    }
  }
}
