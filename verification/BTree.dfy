/** The B+tree over a page store: insert with leaf and internal splits, find, and scan. */
module BTree {
  import opened Common
  import opened Codec
  import opened BTreeShape
  import opened BTreeInsertion
  import opened BTreeLeaves
  import opened BTreePath
  import opened PageStore
  import opened BTreeClimb
  import opened BTreeQueries

  /** `entries.push(kv); entries.sort_unstable_by_key(..)`: a sorted permutation. */
  method PushAndSort(es: seq<LeafKv>, kv: LeafKv) returns (r: seq<LeafKv>)
    requires SortedLeaf(es)
    ensures SortedPush(es, kv, r)
  {
    var i := 0;
    while i < |es| && es[i].key <= kv.key
      invariant 0 <= i <= |es|
      invariant forall j :: 0 <= j < i ==> es[j].key <= kv.key
    {
      i := i + 1;
    }
    r := es[..i] + [kv] + es[i..];
    assert es == es[..i] + es[i..];
  }

  /** `iter().position(|(_, pid)| pid == child)`. */
  method Position(kids: seq<InternalKv>, child: PageId) returns (r: Option<nat>)
    ensures r.Some? ==> r.value < |kids| && kids[r.value].child == child
                        && forall i :: 0 <= i < r.value ==> kids[i].child != child
    ensures r.None? ==> forall i :: 0 <= i < |kids| ==> kids[i].child != child
  {
    for i := 0 to |kids|
      invariant forall j :: 0 <= j < i ==> kids[j].child != child
    {
      if kids[i].child == child {
        return Some(i);
      }
    }
    return None;
  }

  /** Writing a new page and then an old one is writing them in either order. */
  lemma TwoWrites<K, V>(m: map<K, V>, a: K, b: K, zero: V, x: V, y: V)
    requires a != b
    ensures m[b := zero][b := x][a := y] == m[a := y][b := x]
  {
  }

  lemma OverWrite<K, V>(m: map<K, V>, a: K, zero: V, x: V)
    ensures m[a := zero][a := x] == m[a := x]
  {
  }

  class BTree {
    const store: PageStore
    const leafMax: u32
    const internalMax: u32
    var headerPageId: PageId
    var rootPageId: PageId
    /** The levels of the tree, leaves first; empty before the first insert. */
    ghost var levels: seq<Level>

    ghost function Lim(): (r: Limits) {
      Limits(leafMax, internalMax)
    }

    ghost predicate Valid()
      reads this, store
    {
      && store.Valid() && LimitsOk(Lim()) && headerPageId == 0 && headerPageId in store.pages
      && if rootPageId == INVALID_PAGE_ID then
           levels == [] && store.nextPageId == 1 && store.pages[headerPageId] == ZeroPage()
         else
           && Tree(store.nodes, levels, Lim(), 0, 0)
           && RootOf(levels) == rootPageId
           && U32At(store.pages[headerPageId], 0) == rootPageId
           && Allocated(levels, store.nextPageId)
    }

    /** All entries, in the order of an in-order traversal from the root page. */
    ghost function Entries(): (es: seq<LeafKv>)
      reads this, store
    {
      if rootPageId == INVALID_PAGE_ID then [] else
        InOrder(store.nodes, [InternalKv(INVALID_KEY, rootPageId)], if |levels| == 0 then 0 else |levels| - 1)
    }

    constructor (leafMax: u32, internalMax: u32)
      requires LimitsOk(Limits(leafMax, internalMax))
      ensures Valid() && Entries() == [] && fresh(store)
      ensures this.leafMax == leafMax && this.internalMax == internalMax
      ensures store.nextPageId == 1 && levels == []
    {
      this.leafMax, this.internalMax := leafMax, internalMax;
      var pool := new PageStore();
      var header := pool.NewPage();
      store := pool;
      headerPageId := header;
      rootPageId := INVALID_PAGE_ID;
      levels := [];
    }

    lemma EntriesAreLeafLevel()
      requires Valid() && rootPageId != INVALID_PAGE_ID
      ensures Entries() == InOrder(store.nodes, levels[0], 0)
    {
      var h := |levels| - 1;
      InOrderIds(store.nodes, levels[h], [InternalKv(INVALID_KEY, rootPageId)], h);
      InOrderIsLeafLevel(store.nodes, levels, Lim(), h);
    }

    /** One turn of the descent loop, from a node to its child in `slot`: the child is read, the held
        guards are dropped if it has room, and its own guard is taken. */
    method VisitChild(key: Key, internal: Node, slot: nat, stack: seq<PathFrame>, ghost w: Walker)
      returns (child: Node, slot': nat, stack': seq<PathFrame>, ghost w': Walker)
      requires Valid() && rootPageId != INVALID_PAGE_ID && internal.Internal? && StandsAt(w, internal, slot)
      requires w.nodes == store.nodes && w.levels == levels && w.lim == Lim() && w.stack == stack && w.key == key
      ensures StandsAt(w', child, slot') && w'.m == w.m - 1
      ensures w'.nodes == store.nodes && w'.levels == levels && w'.lim == Lim() && w'.stack == stack' && w'.key == key
    {
      ghost var nodes, m := store.nodes, w.m;
      var childPageId := internal.kids[slot].child;
      ghost var pos' := PathStep(nodes, levels, Lim(), m, w.pos, key, slot);
      PathNode(nodes, levels, Lim(), m - 1, pos'[m - 1]);
      child := store.ReadNode(childPageId);
      stack' := stack;
      ghost var b' := w.b;
      if child.Leaf? {
        slot' := INVALID_PAGE_ID;
        if |child.entries| < leafMax {
          stack', b' := [], m - 1;
        }
      } else {
        var found := FindChildIndex(child.kids, key);
        assert child.kids[0] in child.kids;
        slot' := found.value;
        if |child.kids| < internalMax {
          stack', b' := [], m - 1;
        }
      }
      var frame := PathFrame(slot', childPageId);
      HeldStep(nodes, levels, Lim(), m, w.b, w.pos, pos', stack, key, frame);
      stack' := stack' + [frame];
      w' := MakeWalker(nodes, levels, Lim(), m - 1, b', pos', stack', key);
    }

    /** The start of the descent: the root is read and its guard is the only one held. */
    method VisitRoot(key: Key) returns (node: Node, slot: nat, stack: seq<PathFrame>, ghost w: Walker)
      requires Valid() && rootPageId != INVALID_PAGE_ID
      ensures StandsAt(w, node, slot)
      ensures w.nodes == store.nodes && w.levels == levels && w.lim == Lim() && w.stack == stack && w.key == key
    {
      ghost var m, pos := |levels| - 1, seq(|levels|, i => 0);
      PathNode(store.nodes, levels, Lim(), m, 0);
      node := store.ReadNode(rootPageId);
      slot := INVALID_PAGE_ID;
      if node.Internal? {
        var found := FindChildIndex(node.kids, key);
        assert node.kids[0] in node.kids;
        slot := found.value;
      }
      var frame := PathFrame(slot, rootPageId);
      stack := [frame];
      RootHeld(store.nodes, levels, Lim(), key, pos, frame);
      w := MakeWalker(store.nodes, levels, Lim(), m, m, pos, stack, key);
    }

    /** Walks from the root to the leaf of `key`, keeping guards on a stack that is cleared at
        every node with room. The header page plays no part: the root id is the one in memory. */
    method Descend(key: Key) returns (stack: seq<PathFrame>, ghost pos: seq<nat>, ghost b: nat)
      requires Valid() && rootPageId != INVALID_PAGE_ID
      ensures Descending(store.nodes, levels, Lim(), 0, b, pos, stack, key)
      ensures |stack| > 0 && EntriesOf(store.nodes, stack[|stack| - 1].pageId) != []
    {
      var node, slot;
      ghost var w: Walker;
      node, slot, stack, w := VisitRoot(key);
      while node.Internal?
        invariant StandsAt(w, node, slot)
        invariant w.nodes == store.nodes && w.levels == levels && w.lim == Lim() && w.stack == stack && w.key == key
        decreases w.m
      {
        node, slot, stack, w := VisitChild(key, node, slot, stack, w);
      }
      pos, b := w.pos, w.b;
      TopIsLeaf(store.nodes, levels, Lim(), b, pos, stack, key);
    }

    /** The overfull parent `id` keeps the lower half of `kids`; a new page takes the upper half. */
    method SplitParent(id: PageId, kids: seq<InternalKv>) returns (up: InternalKv)
      requires store.Valid() && id in store.pages && store.nextPageId < INVALID_PAGE_ID
      requires 2 <= |kids| <= INTERNAL_PAGE_MAX + 1
      modifies store
      ensures store.Valid() && store.nextPageId == old(store.nextPageId) + 1
      ensures up == InternalKv(kids[|kids| / 2].key, old(store.nextPageId))
      ensures store.nodes == SplitNode(old(store.nodes), id, kids, up.child)
      ensures Kept(old(store.Snap()), store.Snap(), {id})
    {
      ghost var nodes := store.nodes;
      var rightId := store.NewPage();
      ghost var unwritten := store.nodes[rightId];
      up := InternalKv(kids[|kids| / 2].key, rightId);
      store.WriteInternal(rightId, RightHalf(kids));
      store.WriteInternal(id, LeftHalf(kids));
      TwoWrites(nodes, id, rightId, unwritten, Internal(RightHalf(kids)), Internal(LeftHalf(kids)));
    }

    /** The entries of parent `id` with the pending separator right after the child that split. */
    method WithSeparator(id: PageId, left: PageId, pending: InternalKv, ghost q: nat) returns (kids: seq<InternalKv>)
      requires store.Valid() && id in store.nodes && store.nodes[id].Internal?
      requires var ks := store.nodes[id].kids;
               q < |ks| && forall r :: 0 <= r < |ks| ==> (ks[r].child == left <==> r == q)
      ensures kids == InsertAfter(store.nodes[id].kids, q, pending)
    {
      var node := store.ReadNode(id);
      var leftAt := Position(node.kids, left);
      assert node.kids[q].child == left;
      kids := InsertAfter(node.kids, leftAt.value, pending);
    }

    /** One turn of the upward loop, with a frame on the stack: the parent takes the pending
        separator right after the child that split, and splits too if that is one entry too many. */
    method InsertIntoParent(frame: PathFrame, left: PageId, pending: InternalKv, ghost x: Climber)
      returns (split: bool, up: InternalKv, ghost x': Climber, ghost r: Rested)
      requires store.Valid() && x.Climbs? && x.c.lim == Lim() && x.s == store.Snap() && x.left == left && x.pending == pending
      requires |x.frames| > 0 && frame == x.frames[|x.frames| - 1]
      modifies store
      ensures store.Valid()
      ensures split ==> x'.Climbs? && x'.c == x.c && x'.s == store.Snap() && x'.left == frame.pageId && x'.pending == up
                        && x'.frames == x.frames[..|x.frames| - 1]
      ensures !split ==> r.Rests? && r.c == x.c && r.s == store.Snap() && RootOf(r.final) == RootOf(x.c.levels)
                         && 0 in store.pages && store.pages[0] == x.c.start.pages[0]
    {
      ghost var q := ParentOf(x);
      var id := frame.pageId;
      var kids := WithSeparator(id, left, pending, q);
      x', r := x, Unfinished;
      if |kids| <= internalMax {
        split, up := false, pending;
        store.WriteInternal(id, kids);
        r := ClimbEnds(x, store.Snap(), q, kids);
      } else {
        split := true;
        ParentIdLeft(x, q);
        up := SplitParent(id, kids);
        x' := ClimbGoesOn(x, store.Snap(), q, kids, up);
      }
    }

    /** The end of the upward loop when no frame is left. */
    method RootOver(left: PageId, pending: InternalKv, ghost x: Climber) returns (ghost r: Rested)
      requires store.Valid() && headerPageId == 0
      requires x.Climbs? && x.s == store.Snap() && x.frames == [] && x.left == left && x.pending == pending
      modifies this`rootPageId, store
      ensures store.Valid() && r.Rests? && r.c == x.c && r.s == store.Snap()
      ensures RootOf(r.final) == rootPageId && 0 in store.pages && U32At(store.pages[0], 0) == rootPageId
    {
      RootIdLeft(x);
      GrowRoot(left, pending);
      r := ClimbToRoot(x, store.Snap());
    }

    /** The upward loop while frames are left: each takes the pending separator, until one has room. */
    method ClimbFrames(stack: seq<PathFrame>, left: PageId, pending: InternalKv, ghost x0: Climber)
      returns (split: bool, leftPageId: PageId, intendedInsert: InternalKv, ghost x: Climber, ghost r: Rested)
      requires store.Valid() && x0.Climbs? && x0.c.lim == Lim() && x0.s == store.Snap()
      requires x0.frames == stack && x0.left == left && x0.pending == pending
      modifies store
      ensures store.Valid()
      ensures split ==> x.Climbs? && x.c == x0.c && x.s == store.Snap() && x.frames == [] && x.left == leftPageId
                        && x.pending == intendedInsert
      ensures !split ==> r.Rests? && r.c == x0.c && r.s == store.Snap() && RootOf(r.final) == RootOf(x0.c.levels)
                         && 0 in store.pages && store.pages[0] == x0.c.start.pages[0]
    {
      var frames := stack;
      split, leftPageId, intendedInsert, x, r := true, left, pending, x0, Unfinished;
      while frames != []
        invariant store.Valid() && split && x.Climbs? && x.c == x0.c && x.s == store.Snap()
        invariant x.frames == frames && x.left == leftPageId && x.pending == intendedInsert
        decreases |frames|
      {
        var frame := frames[|frames| - 1];
        frames := frames[..|frames| - 1];
        var up;
        split, up, x, r := InsertIntoParent(frame, leftPageId, intendedInsert, x);
        if !split {
          return;
        }
        leftPageId, intendedInsert := frame.pageId, up;
      }
    }

    /** The upward loop: frame after frame takes the pending separator, until one has room or the
        stack is empty and a new root is made. */
    method Propagate(stack: seq<PathFrame>, left: PageId, pending: InternalKv, ghost x0: Climber)
      returns (ghost r: Rested)
      requires store.Valid() && headerPageId == 0
      requires x0.Climbs? && x0.c.lim == Lim() && x0.s == store.Snap() && x0.frames == stack && x0.left == left && x0.pending == pending
      requires rootPageId == RootOf(x0.c.levels) && U32At(x0.c.start.pages[0], 0) == rootPageId
      modifies this`rootPageId, store
      ensures store.Valid() && r.Rests? && r.c == x0.c && r.s == store.Snap()
      ensures RootOf(r.final) == rootPageId && 0 in store.pages && U32At(store.pages[0], 0) == rootPageId
    {
      var split, leftPageId, intendedInsert;
      ghost var x;
      split, leftPageId, intendedInsert, x, r := ClimbFrames(stack, left, pending, x0);
      if split {
        r := RootOver(leftPageId, intendedInsert, x);
      }
    }

    /** The leaf stage: the entry goes into the leaf on top of the stack if it fits; otherwise the
        leaf is read again, the entry pushed again, and the leaf split. */
    method InsertIntoLeaf(kv: LeafKv, frame: PathFrame, ghost stack: seq<PathFrame>, ghost b: nat, ghost pos: seq<nat>)
      returns (split: bool, pending: InternalKv, ghost x: Climber, ghost r: Rested)
      requires Valid()
      requires AtLeaf(store.Snap(), levels, Lim(), pos, b, stack, kv.key)
      requires |stack| > 0 && frame == stack[|stack| - 1] && frame.pageId == levels[0][pos[0]].child
      modifies store
      ensures store.Valid() && (if split then x.Climbs? else r.Rests?)
      ensures var c := if split then x.c else r.c;
              && c == Context(old(store.Snap()), levels, Lim(), pos, b, c.es)
              && multiset(c.es) == multiset(InOrder(old(store.nodes), levels[0], 0)) + multiset{kv}
      ensures split ==> x.s == store.Snap() && x.frames == stack[..|stack| - 1]
                        && x.left == frame.pageId && x.pending == pending
      ensures !split ==> r.s == store.Snap() && r.final == levels && Absorbed(r.c, store.Snap(), levels)
    {
      ghost var s := store.Snap();
      var id := frame.pageId;
      PathNode(s.nodes, levels, Lim(), 0, pos[0]);
      var leaf := store.ReadNode(id);
      var entries := PushAndSort(leaf.entries, kv);
      SortedPushSize(leaf.entries, kv, entries);
      x, r := Nowhere, Unfinished;
      if |entries| > leafMax {
        split := true;
        leaf := store.ReadNode(id);
        entries := PushAndSort(leaf.entries, kv);
        SortedPushSize(leaf.entries, kv, entries);
        LeafIdLeft(s, levels, Lim(), pos, b, stack, kv.key);
        var rightLeafPageId := SplitLeafPage(id, leaf.next, entries);
        pending := InternalKv(entries[|entries| / 2].key, rightLeafPageId);
        x := LeafGoesUp(s, store.Snap(), levels, Lim(), pos, b, stack, kv, entries, pending);
      } else {
        split, pending := false, InternalKv(INVALID_KEY, INVALID_PAGE_ID);
        store.WriteLeaf(id, leaf.next, entries);
        r := LeafFits(s, store.Snap(), levels, Lim(), pos, b, stack, kv, entries);
      }
    }

    /** The upward loop ran out of frames: a new root over both halves, recorded in memory and in
        the header page. */
    method GrowRoot(left: PageId, pending: InternalKv)
      requires store.Valid() && headerPageId == 0 && 0 < store.nextPageId < INVALID_PAGE_ID
      modifies this`rootPageId, store
      ensures store.Valid() && rootPageId == old(store.nextPageId) && store.nextPageId == rootPageId + 1
      ensures headerPageId in store.pages && U32At(store.pages[headerPageId], 0) == rootPageId
      ensures headerPageId in store.nodes
      ensures store.nodes == old(store.nodes)[rootPageId := Internal([InternalKv(INVALID_KEY, left), pending])]
                               [headerPageId := store.nodes[headerPageId]]
      ensures Kept(old(store.Snap()), store.Snap(), {headerPageId})
    {
      ghost var nodes := store.nodes;
      var newRootPageId := store.NewPage();
      ghost var unwritten := store.nodes[newRootPageId];
      var root := [InternalKv(INVALID_KEY, left), pending];
      store.WriteInternal(newRootPageId, root);
      OverWrite(nodes, newRootPageId, unwritten, Internal(root));
      rootPageId := newRootPageId;
      store.WriteRootPageId(headerPageId, rootPageId);
    }

    /** The overfull leaf `id` keeps the lower half of `es` and links to a new page with the upper half. */
    method SplitLeafPage(id: PageId, next: PageId, es: seq<LeafKv>) returns (rightId: PageId)
      requires store.Valid() && id in store.pages && store.nextPageId < INVALID_PAGE_ID && |es| <= LEAF_PAGE_MAX + 1
      modifies store
      ensures store.Valid() && rightId == old(store.nextPageId) && store.nextPageId == rightId + 1
      ensures store.nodes == SplitLeaf(old(store.nodes), id, next, es, rightId)
      ensures Kept(old(store.Snap()), store.Snap(), {id})
    {
      ghost var nodes := store.nodes;
      rightId := store.NewPage();
      ghost var unwritten := store.nodes[rightId];
      var middleIndex := |es| / 2;
      store.WriteLeaf(rightId, next, es[middleIndex..]);
      store.WriteLeaf(id, rightId, es[..middleIndex]);
      TwoWrites(nodes, id, rightId, unwritten, Leaf(next, es[middleIndex..]), Leaf(rightId, es[..middleIndex]));
    }

    /** The first root: a new leaf page holding one entry, and its id in the header page. */
    method WriteFirstRoot(kv: LeafKv) returns (newRoot: PageId)
      requires store.Valid() && headerPageId in store.pages && store.nextPageId < INVALID_PAGE_ID
      modifies store
      ensures store.Valid() && newRoot == old(store.nextPageId) && store.nextPageId == newRoot + 1
      ensures newRoot in store.nodes && store.nodes[newRoot] == Leaf(INVALID_PAGE_ID, [kv])
      ensures headerPageId in store.pages && U32At(store.pages[headerPageId], 0) == newRoot
      ensures Kept(old(store.Snap()), store.Snap(), {headerPageId})
    {
      newRoot := store.NewPage();
      store.WriteRootPageId(headerPageId, newRoot);
      store.WriteLeaf(newRoot, INVALID_PAGE_ID, [kv]);
    }

    /** The first insert ever: the root is a leaf holding the one entry. */
    method InsertFirst(kv: LeafKv)
      requires Valid() && rootPageId == INVALID_PAGE_ID && store.nextPageId < INVALID_PAGE_ID
      modifies this`rootPageId, this`levels, store
      ensures Valid() && rootPageId != INVALID_PAGE_ID && |levels| == 1 && Entries() == [kv]
      ensures store.nextPageId == old(store.nextPageId) + 1
      ensures Kept(old(store.Snap()), store.Snap(), {headerPageId})
    {
      rootPageId := WriteFirstRoot(kv);
      levels := [[InternalKv(INVALID_KEY, rootPageId)]];
      FirstLeaf(store.nodes, Lim(), rootPageId, kv);
    }

    lemma ReadyAtLeaf(key: Key, pos: seq<nat>, b: nat, stack: seq<PathFrame>)
      requires Valid() && rootPageId != INVALID_PAGE_ID && store.nextPageId + PagesTaken(store.nodes, levels, Lim(), key, 0) <= INVALID_PAGE_ID
      requires Descending(store.nodes, levels, Lim(), 0, b, pos, stack, key)
      ensures AtLeaf(store.Snap(), levels, Lim(), pos, b, stack, key)
      ensures |stack| > 0 && stack[|stack| - 1].pageId == levels[0][pos[0]].child
      ensures Entries() == InOrder(store.nodes, levels[0], 0)
    {
      StackTop(levels, 0, b, pos, stack, pos[0], InternalKv(0, 0));
      EntriesAreLeafLevel();
      SplitsAreTaken(store.nodes, levels, Lim(), pos, key, 0);
    }

    lemma ValidAtRest(r: Rested)
      requires store.Valid() && r.Rests? && r.c.lim == Lim() && r.s == store.Snap() && r.final == levels
      requires RootOf(levels) == rootPageId && headerPageId == 0 && 0 in store.pages && U32At(store.pages[0], 0) == rootPageId
      ensures Valid() && rootPageId != INVALID_PAGE_ID && Entries() == r.c.es
    {
      assert levels[|levels| - 1][0].child < store.nextPageId;
      EntriesAreLeafLevel();
    }

    /** The leaf stage, and the upward loop if the leaf split. */
    method LeafThenUp(kv: LeafKv, stack: seq<PathFrame>, ghost b: nat, ghost pos: seq<nat>) returns (ghost r: Rested)
      requires Valid() && rootPageId != INVALID_PAGE_ID
      requires AtLeaf(store.Snap(), levels, Lim(), pos, b, stack, kv.key)
      requires |stack| > 0 && stack[|stack| - 1].pageId == levels[0][pos[0]].child
      modifies this`rootPageId, store
      ensures store.Valid() && r.Rests? && r.c == Context(old(store.Snap()), levels, Lim(), pos, b, r.c.es)
      ensures multiset(r.c.es) == multiset(InOrder(old(store.nodes), levels[0], 0)) + multiset{kv}
      ensures r.s == store.Snap() && RootOf(r.final) == rootPageId && 0 in store.pages && U32At(store.pages[0], 0) == rootPageId
    {
      var frame := stack[|stack| - 1];
      var split, pending;
      ghost var x, s := Nowhere, store.Snap();
      split, pending, x, r := InsertIntoLeaf(kv, frame, stack, b, pos);
      if split {
        r := Propagate(stack[..|stack| - 1], frame.pageId, pending, x);
      }
    }

    /** Every page operation of an insert into a tree that is not empty. */
    method Place(kv: LeafKv) returns (ghost r: Rested)
      requires Valid() && rootPageId != INVALID_PAGE_ID && store.nextPageId + PagesTaken(store.nodes, levels, Lim(), kv.key, 0) <= INVALID_PAGE_ID
      modifies this`rootPageId, store
      ensures store.Valid() && r.Rests? && r.s == store.Snap() && r.c.lim == Lim()
      ensures multiset(r.c.es) == multiset(old(Entries())) + multiset{kv}
      ensures RootOf(r.final) == rootPageId && 0 in store.pages && U32At(store.pages[0], 0) == rootPageId
      ensures Inserted(old(store.Snap()), levels, Lim(), kv.key, store.Snap(), |r.final|)
    {
      ghost var es := Entries();
      var stack;
      ghost var pos, b;
      stack, pos, b := Descend(kv.key);
      ReadyAtLeaf(kv.key, pos, b, stack);
      assert es == InOrder(store.nodes, levels[0], 0);
      r := LeafThenUp(kv, stack, b, pos);
      InsertOutcome(r, kv.key);
    }

    method InsertIntoTree(kv: LeafKv)
      requires Valid() && rootPageId != INVALID_PAGE_ID && store.nextPageId + PagesTaken(store.nodes, levels, Lim(), kv.key, 0) <= INVALID_PAGE_ID
      modifies this`rootPageId, this`levels, store
      ensures Valid() && rootPageId != INVALID_PAGE_ID
      ensures multiset(Entries()) == multiset(old(Entries())) + multiset{kv}
      ensures Inserted(old(store.Snap()), old(levels), Lim(), kv.key, store.Snap(), |levels|)
    {
      ghost var r := Place(kv);
      levels := r.final;
      ValidAtRest(r);
    }

    /** `BTree::insert`. One entry is added and none is lost, with duplicates allowed; the tree grows
        taller exactly if the whole path was full; and the guards released early cost nothing: only
        path nodes all of whose path descendants were full, and on growth the header, are rewritten. */
    method Insert(key: Key, pageId: PageId, slotNum: u32)
      requires Valid() && store.nextPageId + PagesTaken(store.nodes, levels, Lim(), key, 0) <= INVALID_PAGE_ID
      modifies this`rootPageId, this`levels, store
      ensures Valid() && rootPageId != INVALID_PAGE_ID
      ensures multiset(Entries()) == multiset(old(Entries())) + multiset{LeafKv(key, RecordId(pageId, slotNum))}
      ensures Inserted(old(store.Snap()), old(levels), Lim(), key, store.Snap(), |levels|)
    {
      var kv := LeafKv(key, RecordId(pageId, slotNum));
      if rootPageId == INVALID_PAGE_ID {
        InsertFirst(kv);
      } else {
        InsertIntoTree(kv);
      }
    }

    /** `BTree::find_leaf`: from the root named in the header page down to the leaf of `key`. Before
        the first insert the header page is all zeros, so the walk reads the header itself as an
        internal node without entries, and the program panics; in no other case does it. */
    method FindLeaf(key: Key) returns (r: Outcome<(Node, PageId)>, ghost i: nat)
      requires Valid()
      ensures r.Panic? <==> rootPageId == INVALID_PAGE_ID
      ensures r.Done? ==> At(levels[0], i, key) && r.value == (store.nodes[levels[0][i].child], levels[0][i].child)
    {
      var header := store.pages[headerPageId];
      var id := U32At(header, 0);
      i := 0;
      if rootPageId == INVALID_PAGE_ID {
        ZeroPageIsNoNode();
        assert store.nodes[0] == NodeOf(store.pages[0]);
      } else {
        RootSlot(key);
      }
      var node := store.ReadNode(id);
      ghost var m := |levels| - 1;
      while node.Internal?
        invariant rootPageId == INVALID_PAGE_ID ==> node == Internal([])
        invariant rootPageId != INVALID_PAGE_ID ==>
                    && 0 <= m < |levels| && At(levels[m], i, key) && id == levels[m][i].child
                    && id in store.nodes && node == store.nodes[id] && (if m == 0 then node.Leaf? else node.Internal?)
        decreases if rootPageId == INVALID_PAGE_ID then 0 else m
      {
        if rootPageId != INVALID_PAGE_ID {
          PathNode(store.nodes, levels, Lim(), m, i);
          assert node.kids[0] in node.kids;
        }
        var slot := FindChildIndex(node.kids, key);
        if slot.Panic? {
          return Panic, i;
        }
        ghost var below := ChildBelow(key, m, i, slot.value);
        id := node.kids[slot.value].child;
        node := store.ReadNode(id);
        m, i := m - 1, below;
      }
      return Done((node, id)), i;
    }

    lemma ZeroPageIsNoNode()
      ensures NodeOf(ZeroPage()) == Internal([]) && U32At(ZeroPage(), 0) == 0
    {
      var z := ZeroPage();
      assert z[4..8] == [0, 0, 0, 0] && z[0..4] == [0, 0, 0, 0];
      assert LittleEndian(0, 4) == [0, 0, 0, 0];
      U32RoundTrip(0, z, 0);
      U32RoundTrip(0, z, 4);
    }

    lemma RootSlot(key: Key)
      requires Valid() && rootPageId != INVALID_PAGE_ID
      ensures At(levels[|levels| - 1], 0, key) && levels[|levels| - 1][0].child == rootPageId
      ensures rootPageId in store.nodes
      ensures if |levels| == 1 then store.nodes[rootPageId].Leaf? else store.nodes[rootPageId].Internal?
    {
      LevelsSorted(store.nodes, levels, Lim(), 0, 0, |levels| - 1);
      PathNode(store.nodes, levels, Lim(), |levels| - 1, 0);
    }

    lemma ChildBelow(key: Key, m: nat, i: nat, q: nat) returns (i': nat)
      requires Valid() && rootPageId != INVALID_PAGE_ID && 0 < m < |levels| && At(levels[m], i, key)
      requires At(ChildrenOf(store.nodes, levels[m][i].child), q, key)
      ensures At(levels[m - 1], i', key) && levels[m - 1][i'].child == ChildrenOf(store.nodes, levels[m][i].child)[q].child
      ensures levels[m - 1][i'].child in store.nodes
      ensures if m == 1 then store.nodes[levels[0][i'].child].Leaf? else store.nodes[levels[m - 1][i'].child].Internal?
    {
      TreeLevel(store.nodes, levels, Lim(), 0, 0, m);
      LevelsSorted(store.nodes, levels, Lim(), 0, 0, m - 1);
      DescendStep(store.nodes, levels[m], levels[m - 1], Lim(), i, q, key);
      i' := Offset(store.nodes, levels[m], i) + q;
      PathNode(store.nodes, levels, Lim(), m - 1, i');
    }

    /** `BTree::find`: sound and complete, with duplicates too. It panics on a tree without entries. */
    method Find(key: Key) returns (r: Outcome<Option<LeafKv>>)
      requires Valid()
      ensures r.Panic? <==> Entries() == []
      ensures r.Done? && r.value.Some? ==> r.value.value in Entries() && r.value.value.key == key
      ensures r.Done? && r.value.None? ==> forall kv :: kv in Entries() ==> kv.key != key
    {
      var leaf, i := FindLeaf(key);
      if leaf.Panic? {
        return Panic;
      }
      FoundLeaf(key, i);
      var kv := FindKv(leaf.value.0.entries, key);
      return Done(kv);
    }

    lemma FoundLeaf(key: Key, i: nat)
      requires Valid() && rootPageId != INVALID_PAGE_ID && At(levels[0], i, key)
      ensures Entries() != []
      ensures levels[0][i].child in store.nodes && store.nodes[levels[0][i].child].Leaf?
      ensures var es := store.nodes[levels[0][i].child].entries;
              && SortedLeaf(es) && (forall kv :: kv in es ==> kv in Entries())
              && forall kv :: kv in Entries() && kv.key == key ==> exists other :: other in es && other.key == key
    {
      EntriesAreLeafLevel();
      PathNode(store.nodes, levels, Lim(), 0, i);
      assert LeafOk(store.nodes, levels[0], i, Lim());
      LeafOfKey(store.nodes, levels[0], Lim(), i, key);
      forall kv | kv in Entries() && kv.key == key
        ensures exists other :: other in store.nodes[levels[0][i].child].entries && other.key == key
      {
        FindIsComplete(store.nodes, levels[0], Lim(), i, kv);
      }
    }
  }

  /** `Scan`: an iterator over leaves, along their next-page links. While it lives it has the tree to
      itself, so the tree stands still. */
  class Scan {
    const tree: BTree
    var pageId: PageId
    /** The place of `pageId` on the leaf level. */
    ghost var at: nat

    ghost predicate Valid()
      reads this, tree, tree.store
    {
      && tree.Valid() && tree.rootPageId != INVALID_PAGE_ID
      && at <= |tree.levels[0]|
      && pageId == if at < |tree.levels[0]| then tree.levels[0][at].child else INVALID_PAGE_ID
    }

    /** The entries of the leaves still to come. */
    ghost function Remaining(): (es: seq<LeafKv>)
      reads this, tree, tree.store
      requires Valid()
    {
      InOrder(tree.store.nodes, tree.levels[0][at..], 0)
    }

    constructor (tree: BTree, pageId: PageId, ghost at: nat)
      requires tree.Valid() && tree.rootPageId != INVALID_PAGE_ID
      requires at < |tree.levels[0]| && pageId == tree.levels[0][at].child
      ensures Valid() && this.tree == tree && this.at == at
    {
      this.tree, this.pageId, this.at := tree, pageId, at;
    }

    /** The leaf of the current page, with the entries that come next; `None` once none remain. The
        page id INVALID_PAGE_ID names no leaf, so running out is never mistaken for a leaf. */
    method Next() returns (r: Option<Node>)
      requires Valid()
      modifies this
      ensures Valid()
      ensures r.None? <==> old(Remaining()) == []
      ensures r.None? ==> Remaining() == []
      ensures r.Some? ==> r.value.Leaf? && old(Remaining()) == r.value.entries + Remaining() && r.value.entries != []
      ensures r.Some? ==> r.value.next == pageId && at == old(at) + 1
    {
      CurrentLeaf();
      if pageId == INVALID_PAGE_ID {
        return None;
      }
      var leaf := tree.store.ReadNode(pageId);
      pageId := leaf.next;
      at := at + 1;
      return Some(leaf);
    }

    lemma CurrentLeaf()
      requires Valid()
      ensures pageId == INVALID_PAGE_ID <==> at == |tree.levels[0]|
      ensures at == |tree.levels[0]| ==> Remaining() == []
      ensures at < |tree.levels[0]| ==>
                && pageId in tree.store.nodes && LeafOk(tree.store.nodes, tree.levels[0], at, tree.Lim())
                && tree.store.nodes[pageId].entries != []
                && Remaining() == tree.store.nodes[pageId].entries + InOrder(tree.store.nodes, tree.levels[0][at + 1..], 0)
    {
    }
  }

  /** `BTree::scan`: the leaves from the one of `key` on. What is left out is at most `key`; with distinct
      keys it is below `key`. A tree without entries makes it panic. */
  method NewScan(tree: BTree, key: Key) returns (r: Outcome<Scan>)
    requires tree.Valid()
    ensures r.Panic? <==> tree.Entries() == []
    ensures r.Done? ==> fresh(r.value) && r.value.tree == tree && r.value.Valid()
    ensures r.Done? ==> At(tree.levels[0], r.value.at, key)
    ensures r.Done? ==> var before := InOrder(tree.store.nodes, tree.levels[0][..r.value.at], 0);
                        && tree.Entries() == before + r.value.Remaining()
                        && forall kv :: kv in before ==> kv.key <= key
    ensures r.Done? ==> Yields(tree.Entries(), key, r.value.Remaining())
  {
    var leaf, i := tree.FindLeaf(key);
    if leaf.Panic? {
      return Panic;
    }
    tree.FoundLeaf(key, i);
    tree.EntriesAreLeafLevel();
    ScanYields(tree.store.nodes, tree.levels[0], tree.Lim(), i, key);
    var scan := new Scan(tree, leaf.value.1, i);
    return Done(scan);
  }
}
