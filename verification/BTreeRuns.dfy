/** The B+tree over runs of calls: many inserts, and scans followed to their end. */
module BTreeRuns {
  import opened Common
  import opened Codec
  import opened BTreeShape
  import opened BTreeQueries
  import opened BTreeClimb
  import T = BTree

  // ------------------------------------------------------------------ how many pages a tree takes

  /** Where internal nodes have room for three, each level is at most half as wide as the one below it. */
  lemma HalvedAbove(nodes: Nodes, levels: seq<Level>, lim: Limits, h: nat)
    requires LimitsOk(lim) && lim.internalMax >= 3 && Tree(nodes, levels, lim, 0, 0) && h + 1 < |levels|
    ensures 2 * |levels[h + 1]| <= |levels[h]|
  {
    var d := |levels| - 2 - h;
    WidthAtLeast(nodes, levels, lim, d);
    PowPositive((lim.internalMax + 1) / 2, d);
    if h + 2 < |levels| {
      WidthAtLeast(nodes, levels, lim, d - 1);
      PowPositive((lim.internalMax + 1) / 2, d - 1);
      TreeLevel(nodes, levels, lim, 0, 0, h + 1);
      var n := (lim.internalMax + 1) / 2;
      BelowAtLeast(nodes, levels[h + 1], n, lim);
      MulMonotone(n, 2, |levels[h + 1]|);
    }
  }

  lemma {:induction false} PagesPerLeaf(nodes: Nodes, levels: seq<Level>, lim: Limits, h: nat)
    requires LimitsOk(lim) && lim.internalMax >= 3 && Tree(nodes, levels, lim, 0, 0) && h < |levels|
    ensures PageCount(levels[..h + 1]) + |levels[h]| <= 2 * |levels[0]|
    ensures |levels[h]| + h <= |levels[0]|
  {
    assert levels[..h + 1][..h] == levels[..h];
    if h > 0 {
      PagesPerLeaf(nodes, levels, lim, h - 1);
      HalvedAbove(nodes, levels, lim, h - 1);
      LevelsSorted(nodes, levels, lim, 0, 0, h);
    } else {
      assert levels[..0] == [];
    }
  }

  /** A tree takes fewer than two pages an entry, and is no higher than it has entries. Not so where internal
      nodes hold two children only: each can be left with one. */
  lemma PagesPerEntry(nodes: Nodes, levels: seq<Level>, lim: Limits)
    requires LimitsOk(lim) && lim.internalMax >= 3 && Tree(nodes, levels, lim, 0, 0)
    ensures PageCount(levels) < 2 * |InOrder(nodes, levels[0], 0)|
    ensures |levels| <= |InOrder(nodes, levels[0], 0)|
  {
    PagesPerLeaf(nodes, levels, lim, |levels| - 1);
    assert levels[..|levels|] == levels;
    forall i | 0 <= i < |levels[0]|
      ensures |EntriesOf(nodes, levels[0][i].child)| >= 1
    {
      assert LeafOk(nodes, levels[0], i, lim);
    }
    EntriesAtLeast(nodes, levels[0], 1);
  }

  /** The pages that `n` inserts can take, if each splits every level of the tree and adds one. */
  ghost function PagesAtMost(height: nat, n: nat): (r: nat)
    decreases n
  {
    if n == 0 then 0 else height + 1 + PagesAtMost(height + 1, n - 1)
  }

  lemma {:induction false} PagesMonotone(height: nat, height': nat, n: nat)
    requires height' <= height
    ensures PagesAtMost(height', n) <= PagesAtMost(height, n)
    decreases n
  {
    if n > 0 {
      PagesMonotone(height + 1, height' + 1, n - 1);
    }
  }

  /** Page ids last for `n` more inserts into a tree of that height with that many entries. */
  ghost predicate IdsLast(next: nat, height: nat, entries: nat, internalMax: nat, n: nat) {
    || next + PagesAtMost(height, n) <= INVALID_PAGE_ID
    || (internalMax >= 3 && 3 * (entries + n) <= INVALID_PAGE_ID)
  }

  lemma IdsForOne(tree: T.BTree, n: nat)
    requires tree.Valid() && n > 0
    requires IdsLast(tree.store.nextPageId, |tree.levels|, |tree.Entries()|, tree.internalMax, n)
    ensures tree.store.nextPageId + |tree.levels| + 1 <= INVALID_PAGE_ID
  {
    if tree.rootPageId != INVALID_PAGE_ID {
      tree.EntriesAreLeafLevel();
      if tree.internalMax >= 3 {
        PagesPerEntry(tree.store.nodes, tree.levels, tree.Lim());
      }
    }
  }

  lemma IdsAfterOne(next: nat, height: nat, entries: nat, internalMax: nat, n: nat, next': nat, height': nat)
    requires n > 0 && IdsLast(next, height, entries, internalMax, n)
    requires next' <= next + height + 1 && height' <= height + 1
    ensures IdsLast(next', height', entries + 1, internalMax, n - 1)
  {
    PagesMonotone(height + 1, height', n - 1);
  }

  // ------------------------------------------------------------------ many inserts

  method InsertOne(tree: T.BTree, kv: LeafKv, ghost n: nat)
    requires tree.Valid() && n > 0
    requires IdsLast(tree.store.nextPageId, |tree.levels|, |tree.Entries()|, tree.internalMax, n)
    modifies tree`rootPageId, tree`levels, tree.store
    ensures tree.Valid() && multiset(tree.Entries()) == multiset(old(tree.Entries())) + multiset{kv}
    ensures IdsLast(tree.store.nextPageId, |tree.levels|, |tree.Entries()|, tree.internalMax, n - 1)
  {
    ghost var next, height, es := tree.store.nextPageId, |tree.levels|, tree.Entries();
    IdsForOne(tree, n);
    tree.Insert(kv.key, kv.rid.pageId, kv.rid.slotNum);
    SizeAfterOne(es, tree.Entries(), kv);
    IdsAfterOne(next, height, |es|, tree.internalMax, n, tree.store.nextPageId, |tree.levels|);
  }

  /** As long as page ids last, every entry given is added once, and none is lost. */
  method InsertAll(tree: T.BTree, kvs: seq<LeafKv>)
    requires tree.Valid()
    requires IdsLast(tree.store.nextPageId, |tree.levels|, |tree.Entries()|, tree.internalMax, |kvs|)
    modifies tree`rootPageId, tree`levels, tree.store
    ensures tree.Valid()
    ensures multiset(tree.Entries()) == multiset(old(tree.Entries())) + multiset(kvs)
    decreases kvs
  {
    if kvs != [] {
      InsertOne(tree, kvs[0], |kvs|);
      InsertAll(tree, kvs[1..]);
      OneAndRest(kvs);
    }
  }

  lemma OneAndRest(kvs: seq<LeafKv>)
    requires kvs != []
    ensures multiset(kvs) == multiset{kvs[0]} + multiset(kvs[1..])
  {
    assert kvs == [kvs[0]] + kvs[1..];
  }

  lemma SizeAfterOne(es: seq<LeafKv>, es': seq<LeafKv>, kv: LeafKv)
    requires multiset(es') == multiset(es) + multiset{kv}
    ensures |es'| == |es| + 1
  {
    assert |multiset(es')| == |multiset(es)| + 1;
  }

  lemma EntriesSorted(tree: T.BTree)
    requires tree.Valid()
    ensures SortedLeaf(tree.Entries())
  {
    if tree.rootPageId != INVALID_PAGE_ID {
      tree.EntriesAreLeafLevel();
      SuffixSorted(tree.store.nodes, tree.levels[0], tree.Lim(), 0);
      assert tree.levels[0][0..] == tree.levels[0];
    }
  }

  /** A new tree given entries in any order holds exactly those, duplicates too, in the order of their keys. */
  method Build(leafMax: u32, internalMax: u32, kvs: seq<LeafKv>) returns (tree: T.BTree)
    requires LimitsOk(Limits(leafMax, internalMax)) && IdsLast(1, 0, 0, internalMax, |kvs|)
    ensures fresh(tree) && fresh(tree.store) && tree.Valid() && tree.leafMax == leafMax && tree.internalMax == internalMax
    ensures multiset(tree.Entries()) == multiset(kvs) && SortedLeaf(tree.Entries())
  {
    tree := new T.BTree(leafMax, internalMax);
    InsertAll(tree, kvs);
    EntriesSorted(tree);
  }

  // ------------------------------------------------------------------ scans to their end

  /** Calling `next` until it answers `None`: that happens, and what it gave before is all that remained. */
  method Collect(scan: T.Scan) returns (es: seq<LeafKv>)
    requires scan.Valid()
    modifies scan
    ensures scan.Valid() && scan.Remaining() == []
    ensures es == old(scan.Remaining())
    decreases |scan.Remaining()|
  {
    es := [];
    var leaf := scan.Next();
    if leaf.Some? {
      var rest := Collect(scan);
      es := leaf.value.entries + rest;
    }
  }

  /** A scan followed to its end. */
  method ScanFrom(tree: T.BTree, key: Key) returns (r: Outcome<seq<LeafKv>>)
    requires tree.Valid()
    ensures r.Panic? <==> tree.Entries() == []
    ensures r.Done? ==> Yields(tree.Entries(), key, r.value)
  {
    var scan := T.NewScan(tree, key);
    if scan.Panic? {
      return Panic;
    }
    var es := Collect(scan.value);
    return Done(es);
  }

  lemma TwoEntries(es: seq<LeafKv>, a: LeafKv, b: LeafKv)
    requires multiset(es) == multiset{a, b}
    ensures |es| == 2 && (es[0] == a || es[0] == b) && (es[1] == a || es[1] == b)
  {
    assert |multiset(es)| == 2;
    assert es[0] in multiset(es) && es[1] in multiset(es);
  }

  lemma StartsAtSecond(scan: T.Scan, a: LeafKv, b: LeafKv)
    requires scan.Valid() && scan.tree.leafMax == 1 && At(scan.tree.levels[0], scan.at, a.key)
    requires multiset(scan.tree.Entries()) == multiset{a, b} && a.key == b.key
    ensures |scan.Remaining()| == 1
  {
    var tree, es := scan.tree, scan.tree.Entries();
    TwoEntries(es, a, b);
    tree.EntriesAreLeafLevel();
    SecondOfTwo(tree.store.nodes, tree.levels[0], tree.Lim(), scan.at, es[0], es[1]);
  }

  /** Where leaves take one entry, a scan for a key that two entries have misses one of them. */
  method ScanOfTwo(tree: T.BTree, a: LeafKv, b: LeafKv) returns (es: seq<LeafKv>)
    requires tree.Valid() && tree.leafMax == 1 && multiset(tree.Entries()) == multiset{a, b} && a.key == b.key
    ensures |es| == 1
  {
    TwoEntries(tree.Entries(), a, b);
    var scan := T.NewScan(tree, a.key);
    StartsAtSecond(scan.value, a, b);
    es := Collect(scan.value);
  }

  /** A run that leads there: two inserts under one key. */
  method DuplicateSkipped() returns (tree: T.BTree, es: seq<LeafKv>)
    ensures tree.Valid() && multiset(tree.Entries()) == multiset{LeafKv(5, RecordId(1, 0)), LeafKv(5, RecordId(2, 0))}
    ensures |es| == 1 && fresh(tree)
  {
    var a, b := LeafKv(5, RecordId(1, 0)), LeafKv(5, RecordId(2, 0));
    tree := Build(1, 2, [a, b]);
    es := ScanOfTwo(tree, a, b);
  }
}
