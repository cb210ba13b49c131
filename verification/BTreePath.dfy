/** The path of one key from the root to a leaf, and which of its nodes an insert must hold. */
module BTreePath {
  import opened Common
  import opened Codec
  import opened BTreeShape
  import opened BTreeInsertion
  import opened BTreeLeaves

  /** A held write guard: the page, and the slot the descent took in it. */
  datatype PathFrame = PathFrame(slotToNextChild: nat, pageId: PageId)

  /** A node that would split if it took one more entry. */
  ghost predicate Full(nodes: Nodes, h: nat, id: PageId, lim: Limits) {
    if h == 0 then |EntriesOf(nodes, id)| >= lim.leafMax else |ChildrenOf(nodes, id)| >= lim.internalMax
  }

  /** The path slot of level `t` is a child of the path slot of the level above. */
  ghost predicate ChildAt(nodes: Nodes, levels: seq<Level>, pos: seq<nat>, t: nat)
    requires |pos| == |levels| && t + 1 < |levels|
  {
    Covers(nodes, levels[t + 1], pos[t + 1], pos[t])
  }

  /** `pos[t]` is the slot of the path on level `t`, for the levels from `m` up. */
  ghost predicate Linked(nodes: Nodes, levels: seq<Level>, m: nat, pos: seq<nat>) {
    && |pos| == |levels|
    && (forall t :: m <= t < |levels| ==> pos[t] < |levels[t]|)
    && forall t: nat {:trigger ChildAt(nodes, levels, pos, t)} :: m <= t < |levels| - 1 ==> ChildAt(nodes, levels, pos, t)
  }

  ghost predicate PathOf(nodes: Nodes, levels: seq<Level>, m: nat, pos: seq<nat>, key: Key) {
    && Linked(nodes, levels, m, pos)
    && forall t :: m <= t < |levels| ==> At(levels[t], pos[t], key)
  }

  /** Every path node strictly below level `b`, from `m` up, is full. */
  ghost predicate FullBelow(nodes: Nodes, levels: seq<Level>, lim: Limits, m: nat, b: nat, pos: seq<nat>)
    requires |pos| == |levels| && b <= |levels| && forall t :: m <= t < |levels| ==> pos[t] < |levels[t]|
  {
    forall t :: m <= t < b ==> Full(nodes, t, levels[t][pos[t]].child, lim)
  }

  /** Guards are held from level `m` up to level `b`: all path nodes below `b` are full, and `b`
      is the root or a node with room. So nothing above `b` can change. */
  ghost predicate Held(nodes: Nodes, levels: seq<Level>, lim: Limits, m: nat, b: nat, pos: seq<nat>)
    requires Linked(nodes, levels, m, pos)
  {
    && m <= b < |levels|
    && FullBelow(nodes, levels, lim, m, b, pos)
    && (b < |levels| - 1 ==> !Full(nodes, b, levels[b][pos[b]].child, lim))
  }

  /** The path stack is the contiguous run of path pages from level `b`, at its bottom, down to level `m`. */
  ghost predicate StackOk(levels: seq<Level>, m: nat, b: nat, pos: seq<nat>, stack: seq<PathFrame>)
    requires |pos| == |levels| && m <= b + 1 <= |levels| && forall t :: m <= t < |levels| ==> pos[t] < |levels[t]|
  {
    |stack| == b + 1 - m && forall t :: 0 <= t < |stack| ==> stack[t].pageId == levels[b - t][pos[b - t]].child
  }

  lemma PathExtends(nodes: Nodes, levels: seq<Level>, m: nat, pos: seq<nat>, key: Key, i: nat)
    requires 0 < m < |levels| && PathOf(nodes, levels, m, pos, key)
    requires At(levels[m - 1], i, key) && Covers(nodes, levels[m], pos[m], i)
    ensures PathOf(nodes, levels, m - 1, pos[m - 1 := i], key)
  {
    var pos' := pos[m - 1 := i];
    forall t: nat | m - 1 <= t < |levels| - 1
      ensures ChildAt(nodes, levels, pos', t)
    {
      assert t >= m ==> ChildAt(nodes, levels, pos, t);
    }
  }

  /** The descent goes one level down. */
  lemma PathStep(nodes: Nodes, levels: seq<Level>, lim: Limits, m: nat, pos: seq<nat>, key: Key, q: nat) returns (pos': seq<nat>)
    requires Tree(nodes, levels, lim, 0, 0) && 0 < m < |levels| && PathOf(nodes, levels, m, pos, key)
    requires At(ChildrenOf(nodes, levels[m][pos[m]].child), q, key)
    ensures |pos'| == |pos| && forall t :: m <= t < |pos| ==> pos'[t] == pos[t]
    ensures PathOf(nodes, levels, m - 1, pos', key)
    ensures levels[m - 1][pos'[m - 1]].child == ChildrenOf(nodes, levels[m][pos[m]].child)[q].child
  {
    TreeLevel(nodes, levels, lim, 0, 0, m);
    LevelsSorted(nodes, levels, lim, 0, 0, m - 1);
    DescendStep(nodes, levels[m], levels[m - 1], lim, pos[m], q, key);
    var i := Offset(nodes, levels[m], pos[m]) + q;
    PathExtends(nodes, levels, m, pos, key, i);
    pos' := pos[m - 1 := i];
  }

  /** What a path node above the leaves is: an internal node whose keys ascend from -infinity. */
  lemma PathNode(nodes: Nodes, levels: seq<Level>, lim: Limits, m: nat, i: nat)
    requires Tree(nodes, levels, lim, 0, 0) && m < |levels| && i < |levels[m]|
    ensures levels[m][i].child in nodes
    ensures m == 0 ==> nodes[levels[0][i].child].Leaf? && SortedLeaf(EntriesOf(nodes, levels[0][i].child))
                       && |EntriesOf(nodes, levels[0][i].child)| <= lim.leafMax
    ensures m > 0 ==> nodes[levels[m][i].child].Internal?
    ensures m > 0 ==> var ks := ChildrenOf(nodes, levels[m][i].child);
                      SortedKids(ks) && |ks| > 0 && ks[0].key == INVALID_KEY && |ks| <= lim.internalMax
  {
    if m == 0 {
      assert LeafOk(nodes, levels[0], i, lim);
    } else {
      TreeLevel(nodes, levels, lim, 0, 0, m);
      assert InternalOk(nodes, levels[m][i].child, MinKids(levels[m], lim), lim);
      LevelsSorted(nodes, levels, lim, 0, 0, m - 1);
      NodeSorted(nodes, levels[m], levels[m - 1], lim, i);
    }
  }

  /** The state of the descent when it stands at level `m`: the guards held reach up to level `b`. */
  ghost predicate Descending(nodes: Nodes, levels: seq<Level>, lim: Limits, m: nat, b: nat, pos: seq<nat>,
                             stack: seq<PathFrame>, key: Key) {
    && PathOf(nodes, levels, m, pos, key)
    && Held(nodes, levels, lim, m, b, pos)
    && StackOk(levels, m, b, pos, stack)
  }

  /** A descent under way, or none. */
  datatype WalkState = NotWalking
                     | Walking(nodes: Nodes, levels: seq<Level>, lim: Limits, m: nat, b: nat, pos: seq<nat>, stack: seq<PathFrame>, key: Key)

  /** A descent that meets its invariant. */
  type Walker = w: WalkState | w.Walking? ==> Descending(w.nodes, w.levels, w.lim, w.m, w.b, w.pos, w.stack, w.key)
    ghost witness NotWalking

  lemma MakeWalker(nodes: Nodes, levels: seq<Level>, lim: Limits, m: nat, b: nat, pos: seq<nat>, stack: seq<PathFrame>, key: Key)
    returns (w: Walker)
    requires Descending(nodes, levels, lim, m, b, pos, stack, key)
    ensures w == Walking(nodes, levels, lim, m, b, pos, stack, key)
  {
    w := Walking(nodes, levels, lim, m, b, pos, stack, key);
  }

  /** The node the descent stands at, and the slot it goes on to. */
  ghost predicate StandsAt(w: Walker, node: Node, slot: nat) {
    && w.Walking? && w.m < |w.levels| == |w.pos| && w.pos[w.m] < |w.levels[w.m]|
    && (node.Internal? <==> w.m > 0)
    && (node.Internal? ==> node.kids == ChildrenOf(w.nodes, w.levels[w.m][w.pos[w.m]].child) && At(node.kids, slot, w.key))
  }

  /** The descent starts with the root's guard alone. */
  lemma RootHeld(nodes: Nodes, levels: seq<Level>, lim: Limits, key: Key, pos: seq<nat>, frame: PathFrame)
    requires Tree(nodes, levels, lim, 0, 0) && |pos| == |levels| && pos[|pos| - 1] == 0
    requires frame.pageId == levels[|levels| - 1][0].child
    ensures Descending(nodes, levels, lim, |levels| - 1, |levels| - 1, pos, [frame], key)
  {
    LevelsSorted(nodes, levels, lim, 0, 0, |levels| - 1);
  }

  /** Taking one more guard, after dropping all others if the child has room, keeps the descent in order. */
  lemma HeldStep(nodes: Nodes, levels: seq<Level>, lim: Limits, m: nat, b: nat, pos: seq<nat>, pos': seq<nat>,
                 stack: seq<PathFrame>, key: Key, frame: PathFrame)
    requires 0 < m && Descending(nodes, levels, lim, m, b, pos, stack, key)
    requires |pos'| == |pos| && forall t :: m <= t < |pos| ==> pos'[t] == pos[t]
    requires PathOf(nodes, levels, m - 1, pos', key)
    requires frame.pageId == levels[m - 1][pos'[m - 1]].child
    ensures Full(nodes, m - 1, frame.pageId, lim) ==> Descending(nodes, levels, lim, m - 1, b, pos', stack + [frame], key)
    ensures !Full(nodes, m - 1, frame.pageId, lim) ==> Descending(nodes, levels, lim, m - 1, m - 1, pos', [] + [frame], key)
  {
  }

  lemma LeftAtOnly(nodes: Nodes, levels: seq<Level>, lim: Limits, j: nat, p: nat, i: nat, q: nat, r: nat)
    requires Tree(nodes, levels, lim, j, p) && 0 < j < |levels| && i < |levels[j]|
    requires q < |ChildrenOf(nodes, levels[j][i].child)| && p == Offset(nodes, levels[j], i) + q
    requires r < |ChildrenOf(nodes, levels[j][i].child)|
    ensures ChildrenOf(nodes, levels[j][i].child)[r].child == levels[j - 1][p].child <==> r == q
  {
    TreeLevel(nodes, levels, lim, j, p, j);
    ChildSlot(nodes, levels[j], i, r);
    var a := Offset(nodes, levels[j], i) + r;
    var b := if a < p + 1 then a else a + 1;
    assert RemoveAt(levels[j - 1], p + 1)[a] == levels[j - 1][b];
    assert PageAt(levels, j - 1, b) == PageAt(levels, j - 1, p) ==> b == p;
  }

  /** The left half is found in its parent, and at one place only. */
  lemma LeftPosition(nodes: Nodes, levels: seq<Level>, lim: Limits, j: nat, p: nat, i: nat) returns (q: nat)
    requires Tree(nodes, levels, lim, j, p) && 0 < j < |levels| && Covers(nodes, levels[j], i, p)
    ensures p == Offset(nodes, levels[j], i) + q && q < |ChildrenOf(nodes, levels[j][i].child)|
    ensures forall r :: 0 <= r < |ChildrenOf(nodes, levels[j][i].child)| ==>
              (ChildrenOf(nodes, levels[j][i].child)[r].child == levels[j - 1][p].child <==> r == q)
  {
    q := p - Offset(nodes, levels[j], i);
    forall r | 0 <= r < |ChildrenOf(nodes, levels[j][i].child)|
      ensures ChildrenOf(nodes, levels[j][i].child)[r].child == levels[j - 1][p].child <==> r == q
    {
      LeftAtOnly(nodes, levels, lim, j, p, i, q, r);
    }
  }

  /** A path survives, above level `j`, when only pages of level `j` change. */
  lemma PathKept(nodes: Nodes, nodes': Nodes, levels: seq<Level>, levels': seq<Level>, lim: Limits, j: nat, b: nat, pos: seq<nat>)
    requires Linked(nodes, levels, j, pos) && |levels'| == |levels| && j < |levels| && b < |levels|
    requires FullBelow(nodes, levels, lim, j, b, pos)
    requires forall t :: j < t < |levels| ==> levels'[t] == levels[t] && AgreeOn(nodes, nodes', levels[t])
    requires pos[j] < |levels'[j]|
    requires forall t :: j < t < |levels| ==> AllInternalOk(nodes, levels[t], 0, lim)
    ensures Linked(nodes', levels', j + 1, pos)
    ensures j + 1 < |levels| ==> ChildAt(nodes', levels', pos, j)
    ensures FullBelow(nodes', levels', lim, j + 1, b, pos)
  {
    forall t: nat | j <= t < |levels| - 1
      ensures ChildAt(nodes', levels', pos, t)
    {
      var l := levels[t + 1];
      assert ChildAt(nodes, levels, pos, t);
      forall a | 0 <= a < |l|
        ensures ChildrenOf(nodes, l[a].child) == ChildrenOf(nodes', l[a].child)
      {
        assert InternalOk(nodes, l[a].child, 0, lim);
      }
      BelowFrame(nodes, nodes', l[..pos[t + 1]]);
    }
    forall t | j + 1 <= t < b
      ensures Full(nodes', t, levels'[t][pos[t]].child, lim)
    {
      assert Full(nodes, t, levels[t][pos[t]].child, lim);
      assert InternalOk(nodes, levels[t][pos[t]].child, 0, lim);
    }
  }

  /** A split on its way up: the levels below `j` already have the new slot `pending`, right after
      the page `left` that split; the stack holds the guards of levels `j` to `b`. When the stack
      is empty there is no level left: the root itself split. */
  ghost predicate Splitting(nodes: Nodes, levels: seq<Level>, lim: Limits, j: nat, b: nat, pos: seq<nat>,
                            stack: seq<PathFrame>, left: PageId, pending: InternalKv) {
    && 0 < j <= b + 1 <= |levels| && |pos| == |levels|
    && Tree(nodes, levels, lim, j, pos[j - 1])
    && left == levels[j - 1][pos[j - 1]].child && pending == levels[j - 1][pos[j - 1] + 1]
    && Linked(nodes, levels, j, pos)
    && (j < |levels| ==> ChildAt(nodes, levels, pos, j - 1))
    && FullBelow(nodes, levels, lim, j, b, pos)
    && (j <= b < |levels| - 1 ==> !Full(nodes, b, levels[b][pos[b]].child, lim))
    && (j == b + 1 ==> j == |levels|)
    && StackOk(levels, j, b, pos, stack)
  }

  lemma LevelsAboveOk(nodes: Nodes, levels: seq<Level>, lim: Limits, hole: nat, p: nat, t: nat)
    requires Tree(nodes, levels, lim, hole, p) && 0 < t < |levels|
    ensures AllInternalOk(nodes, levels[t], 0, lim)
  {
    TreeLevel(nodes, levels, lim, hole, p, t);
    forall a | 0 <= a < |levels[t]|
      ensures InternalOk(nodes, levels[t][a].child, 0, lim)
    {
      assert InternalOk(nodes, levels[t][a].child, MinKids(levels[t], lim), lim);
    }
  }

  /** Changing only pages of level `j`, and giving it a slot right after the path's, keeps the path above. */
  lemma PathAbove(nodes: Nodes, nodes': Nodes, levels: seq<Level>, lim: Limits, hole: nat, p: nat, j: nat, b: nat,
                  pos: seq<nat>, up: InternalKv)
    requires Tree(nodes, levels, lim, hole, p) && Linked(nodes, levels, j, pos) && j <= b < |levels|
    requires FullBelow(nodes, levels, lim, j, b, pos)
    requires Unused(levels, up.child) && OnlyChanged(nodes, nodes', levels[j][pos[j]].child, up.child)
    ensures var levels' := levels[j := InsertAfter(levels[j], pos[j], up)];
            && Linked(nodes', levels', j + 1, pos)
            && (j + 1 < |levels| ==> ChildAt(nodes', levels', pos, j))
            && FullBelow(nodes', levels', lim, j + 1, b, pos)
            && (j < b && Full(nodes', b, levels'[b][pos[b]].child, lim) ==> Full(nodes, b, levels[b][pos[b]].child, lim))
  {
    var levels' := levels[j := InsertAfter(levels[j], pos[j], up)];
    forall t | j < t < |levels|
      ensures levels'[t] == levels[t] && AgreeOn(nodes, nodes', levels[t]) && AllInternalOk(nodes, levels[t], 0, lim)
    {
      ElsewhereAgrees(nodes, nodes', levels, j, pos[j], up.child, t);
      LevelsAboveOk(nodes, levels, lim, hole, p, t);
    }
    PathKept(nodes, nodes', levels, levels', lim, j, b, pos);
    if j < b {
      assert InternalOk(nodes, levels[b][pos[b]].child, 0, lim);
    }
  }

  lemma StackTop(levels: seq<Level>, j: nat, b: nat, pos: seq<nat>, stack: seq<PathFrame>, i: nat, up: InternalKv)
    requires |pos| == |levels| && j <= b < |levels| && (forall t :: j <= t < |levels| ==> pos[t] < |levels[t]|)
    requires StackOk(levels, j, b, pos, stack) && i < |levels[j]|
    ensures |stack| > 0 && stack[|stack| - 1].pageId == levels[j][pos[j]].child
    ensures StackOk(levels[j := InsertAfter(levels[j], i, up)], j + 1, b, pos, stack[..|stack| - 1])
  {
  }

  /** The descent ends with a leaf on top of the stack. */
  lemma TopIsLeaf(nodes: Nodes, levels: seq<Level>, lim: Limits, b: nat, pos: seq<nat>, stack: seq<PathFrame>, key: Key)
    requires Descending(nodes, levels, lim, 0, b, pos, stack, key) && |levels| > 0 && LeavesOk(nodes, levels[0], lim)
    ensures |stack| > 0 && EntriesOf(nodes, stack[|stack| - 1].pageId) != []
  {
    StackTop(levels, 0, b, pos, stack, pos[0], InternalKv(0, 0));
    assert LeafOk(nodes, levels[0], pos[0], lim);
  }

  /** The full node on level `j` splits: the split stands one level higher. */
  lemma SplitUp(nodes: Nodes, levels: seq<Level>, lim: Limits, j: nat, b: nat, pos: seq<nat>, stack: seq<PathFrame>,
                left: PageId, pending: InternalKv, q: nat, ks': Level, nodes': Nodes, up: InternalKv)
    requires LimitsOk(lim) && Splitting(nodes, levels, lim, j, b, pos, stack, left, pending) && j <= b
    requires var ks := ChildrenOf(nodes, levels[j][pos[j]].child);
             q < |ks| == lim.internalMax && pos[j - 1] == Offset(nodes, levels[j], pos[j]) + q && ks' == InsertAfter(ks, q, pending)
    requires Unused(levels, up.child) && up.key == ks'[|ks'| / 2].key
    requires nodes' == SplitNode(nodes, levels[j][pos[j]].child, ks', up.child)
    ensures var levels' := levels[j := InsertAfter(levels[j], pos[j], up)];
            && Splitting(nodes', levels', lim, j + 1, b, pos, stack[..|stack| - 1], levels[j][pos[j]].child, up)
            && InOrder(nodes', levels'[0], 0) == InOrder(nodes, levels[0], 0)
  {
    SplitStep(nodes, levels, lim, j, pos[j - 1], pos[j], q, ks', up.child);
    PathAbove(nodes, nodes', levels, lim, j, pos[j - 1], j, b, pos, up);
    StackTop(levels, j, b, pos, stack, pos[j], up);
    RemoveInserted(levels[j], pos[j], up);
  }

  /** What the upward loop finds when it pops a frame: the parent, an internal node that lists the
      page that split at exactly one place. */
  lemma AtParent(nodes: Nodes, levels: seq<Level>, lim: Limits, j: nat, b: nat, pos: seq<nat>, stack: seq<PathFrame>,
                 left: PageId, pending: InternalKv) returns (q: nat)
    requires Splitting(nodes, levels, lim, j, b, pos, stack, left, pending) && |stack| > 0
    ensures j <= b && stack[|stack| - 1].pageId == levels[j][pos[j]].child
    ensures var id := levels[j][pos[j]].child;
            && id in nodes && nodes[id].Internal?
            && pos[j - 1] == Offset(nodes, levels[j], pos[j]) + q && q < |nodes[id].kids| <= lim.internalMax
            && forall r :: 0 <= r < |nodes[id].kids| ==> (nodes[id].kids[r].child == left <==> r == q)
  {
    StackTop(levels, j, b, pos, stack, pos[j], pending);
    q := LeftPosition(nodes, levels, lim, j, pos[j - 1], pos[j]);
    LevelsAboveOk(nodes, levels, lim, j, pos[j - 1], j);
    assert InternalOk(nodes, levels[j][pos[j]].child, 0, lim);
  }

  /** The parent has room: the split ends here. */
  lemma GrowUp(nodes: Nodes, levels: seq<Level>, lim: Limits, j: nat, b: nat, pos: seq<nat>, stack: seq<PathFrame>,
               left: PageId, pending: InternalKv, q: nat, ks': Level)
    requires LimitsOk(lim) && Splitting(nodes, levels, lim, j, b, pos, stack, left, pending) && j <= b
    requires var ks := ChildrenOf(nodes, levels[j][pos[j]].child);
             q < |ks| < lim.internalMax && pos[j - 1] == Offset(nodes, levels[j], pos[j]) + q && ks' == InsertAfter(ks, q, pending)
    ensures var nodes' := nodes[levels[j][pos[j]].child := Internal(ks')];
            Tree(nodes', levels, lim, 0, 0) && InOrder(nodes', levels[0], 0) == InOrder(nodes, levels[0], 0)
  {
    GrowStep(nodes, levels, lim, j, pos[j - 1], pos[j], q);
  }

  /** The stack is empty: the root split, and a new root takes both halves. */
  lemma RootUp(nodes: Nodes, levels: seq<Level>, lim: Limits, j: nat, b: nat, pos: seq<nat>, left: PageId,
               pending: InternalKv, rootId: PageId)
    requires LimitsOk(lim) && Splitting(nodes, levels, lim, j, b, pos, [], left, pending) && Unused(levels, rootId)
    ensures j == |levels|
    ensures var nodes' := nodes[rootId := Internal([InternalKv(INVALID_KEY, left), pending])];
            var levels' := levels + [[InternalKv(INVALID_KEY, rootId)]];
            Tree(nodes', levels', lim, 0, 0) && InOrder(nodes', levels'[0], 0) == InOrder(nodes, levels[0], 0)
  {
    RootStep(nodes, levels, lim, rootId);
  }

  /** The leaf the descent reached is full: it splits, and the split is on its way up. */
  lemma LeafSplitUp(nodes: Nodes, levels: seq<Level>, lim: Limits, b: nat, pos: seq<nat>, stack: seq<PathFrame>,
                    kv: LeafKv, es': seq<LeafKv>, rightId: PageId)
    requires LimitsOk(lim) && Tree(nodes, levels, lim, 0, 0) && Descending(nodes, levels, lim, 0, b, pos, stack, kv.key)
    requires SortedPush(EntriesOf(nodes, levels[0][pos[0]].child), kv, es') && |es'| > lim.leafMax && Unused(levels, rightId)
    ensures |stack| > 0 && |es'| == lim.leafMax + 1
    ensures var id := levels[0][pos[0]].child;
            && id in nodes && nodes[id].Leaf?
            && var nodes' := SplitLeaf(nodes, id, nodes[id].next, es', rightId);
            var up := InternalKv(es'[|es'| / 2].key, rightId);
            var levels' := levels[0 := InsertAfter(levels[0], pos[0], up)];
            && Splitting(nodes', levels', lim, 1, b, pos, stack[..|stack| - 1], id, up)
            && multiset(InOrder(nodes', levels'[0], 0)) == multiset(InOrder(nodes, levels[0], 0)) + multiset{kv}
  {
    LeafSplitStep(nodes, levels, lim, pos[0], kv, es', rightId);
    var id := levels[0][pos[0]].child;
    var nodes' := SplitLeaf(nodes, id, nodes[id].next, es', rightId);
    var up := InternalKv(es'[|es'| / 2].key, rightId);
    PathAbove(nodes, nodes', levels, lim, 0, 0, 0, b, pos, up);
    StackTop(levels, 0, b, pos, stack, pos[0], up);
    RemoveInserted(levels[0], pos[0], up);
    SortedPushSize(EntriesOf(nodes, id), kv, es');
  }

  lemma SortedPushSize(es: seq<LeafKv>, kv: LeafKv, es': seq<LeafKv>)
    requires SortedPush(es, kv, es')
    ensures |es'| == |es| + 1
  {
    assert |multiset(es')| == |multiset(es)| + 1;
  }

  lemma OutsideLevel(nodes: Nodes, levels: seq<Level>, lim: Limits, x: PageId, v: Node, m: nat)
    requires Tree(nodes, levels, lim, 0, 0) && Unused(levels, x) && m < |levels| - 1
    ensures LevelOk(nodes[x := v], levels[m + 1], Known(levels, m, 0, 0), lim)
  {
    TreeLevel(nodes, levels, lim, 0, 0, m + 1);
    OutsideAgrees(nodes, levels, x, v, m + 1);
    LevelFrame(nodes, nodes[x := v], levels[m + 1], levels[m], lim);
  }

  lemma OutsideAgrees(nodes: Nodes, levels: seq<Level>, x: PageId, v: Node, m: nat)
    requires Unused(levels, x) && m < |levels|
    ensures AgreeOn(nodes, nodes[x := v], levels[m])
  {
  }

  /** Pages outside the tree do not matter to it. */
  lemma OutsidePage(nodes: Nodes, levels: seq<Level>, lim: Limits, x: PageId, v: Node)
    requires Tree(nodes, levels, lim, 0, 0) && Unused(levels, x)
    ensures Tree(nodes[x := v], levels, lim, 0, 0)
    ensures InOrder(nodes[x := v], levels[0], 0) == InOrder(nodes, levels[0], 0)
  {
    OutsideAgrees(nodes, levels, x, v, 0);
    LeavesFrame(nodes, nodes[x := v], levels[0], lim);
    forall m: nat | m < |levels| - 1
      ensures LevelOk(nodes[x := v], levels[m + 1], Known(levels, m, 0, 0), lim)
    {
      OutsideLevel(nodes, levels, lim, x, v, m);
    }
  }

  /** The pages of the path on the levels below `j`. */
  ghost function PathPages(levels: seq<Level>, pos: seq<nat>, j: nat): (r: set<PageId>)
    requires |pos| == |levels| && j <= |levels| && forall t :: 0 <= t < j ==> pos[t] < |levels[t]|
  {
    set t | 0 <= t < j :: levels[t][pos[t]].child
  }

  lemma NotOnPathBelow(levels: seq<Level>, pos: seq<nat>, j: nat, m: nat, i: nat)
    requires Distinct(levels) && |pos| == |levels| && j <= m < |levels| && i < |levels[m]|
    requires forall t :: 0 <= t < j ==> pos[t] < |levels[t]|
    ensures levels[m][i].child !in PathPages(levels, pos, j)
  {
    forall t | 0 <= t < j
      ensures levels[t][pos[t]].child != levels[m][i].child
    {
      assert PageAt(levels, t, pos[t]) != PageAt(levels, m, i);
    }
  }
}
