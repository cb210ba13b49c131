/** What the B+tree invariant is good for: order, search, the leaf chain, separators, occupancy. */
module BTreeQueries {
  import opened Common
  import opened Codec
  import opened BTreeShape

  // --------------------------------------------------------------- order and search

  lemma InOrderHead(nodes: Nodes, l: Level, i: nat)
    requires i < |l|
    ensures InOrder(nodes, l[i..], 0) == EntriesOf(nodes, l[i].child) + InOrder(nodes, l[i + 1..], 0)
  {
  }

  /** From leaf `i` on, the entries are sorted, and none is below the bound of leaf `i`. */
  lemma {:induction false} SuffixSorted(nodes: Nodes, l: Level, lim: Limits, i: nat)
    requires LeavesOk(nodes, l, lim) && i <= |l|
    ensures SortedLeaf(InOrder(nodes, l[i..], 0))
    ensures i < |l| ==> forall kv :: kv in InOrder(nodes, l[i..], 0) ==> l[i].key <= kv.key
    decreases |l| - i
  {
    if i < |l| {
      SuffixSorted(nodes, l, lim, i + 1);
      InOrderHead(nodes, l, i);
      assert LeafOk(nodes, l, i, lim);
      var es, rest := EntriesOf(nodes, l[i].child), InOrder(nodes, l[i + 1..], 0);
      if i + 1 < |l| {
        LeafBoundsAscend(nodes, l, lim, i, i + 1);
        forall a, b | 0 <= a < |es| && 0 <= b < |rest|
          ensures es[a].key <= rest[b].key
        {
          assert es[a] in es && rest[b] in rest;
        }
      } else {
        assert rest == [];
      }
    }
  }

  /** Before leaf `i`, no entry is above the bound of leaf `i`. */
  lemma {:induction false} PrefixBounded(nodes: Nodes, l: Level, lim: Limits, i: nat, j: nat)
    requires LeavesOk(nodes, l, lim) && j <= i < |l|
    ensures forall kv :: kv in InOrder(nodes, l[..j], 0) ==> kv.key <= l[i].key
  {
    if j > 0 {
      PrefixBounded(nodes, l, lim, i, j - 1);
      assert l[..j] == l[..j - 1] + [l[j - 1]];
      InOrderConcat(nodes, l[..j - 1], [l[j - 1]], 0);
      assert InOrder(nodes, [l[j - 1]], 0) == EntriesOf(nodes, l[j - 1].child) + InOrder(nodes, [l[j - 1]][1..], 0);
      LeafBoundsAscend(nodes, l, lim, j - 1, i);
    }
  }

  /** The leaf a descent for `key` reaches splits the entries: what comes before is at most `key`,
      what comes after is above it. */
  lemma LeafOfKey(nodes: Nodes, l: Level, lim: Limits, i: nat, key: Key)
    requires LeavesOk(nodes, l, lim) && At(l, i, key)
    ensures InOrder(nodes, l, 0) == InOrder(nodes, l[..i], 0) + InOrder(nodes, l[i..], 0)
    ensures InOrder(nodes, l[i..], 0) == EntriesOf(nodes, l[i].child) + InOrder(nodes, l[i + 1..], 0)
    ensures forall kv :: kv in InOrder(nodes, l[..i], 0) ==> kv.key <= l[i].key <= key
    ensures forall kv :: kv in InOrder(nodes, l[i + 1..], 0) ==> key < kv.key
  {
    assert l == l[..i] + l[i..];
    InOrderConcat(nodes, l[..i], l[i..], 0);
    InOrderHead(nodes, l, i);
    PrefixBounded(nodes, l, lim, i, i);
    SuffixSorted(nodes, l, lim, i + 1);
    if i + 1 == |l| {
      assert InOrder(nodes, l[i + 1..], 0) == [];
    }
  }

  /** Search is complete, duplicates included: a key that is anywhere in the tree is in the leaf the
      descent reaches, because that leaf starts with its own separator. */
  lemma FindIsComplete(nodes: Nodes, l: Level, lim: Limits, i: nat, kv: LeafKv)
    requires LeavesOk(nodes, l, lim) && At(l, i, kv.key) && kv in InOrder(nodes, l, 0)
    ensures exists other :: other in EntriesOf(nodes, l[i].child) && other.key == kv.key
  {
    LeafOfKey(nodes, l, lim, i, kv.key);
    assert LeafOk(nodes, l, i, lim);
    var es := EntriesOf(nodes, l[i].child);
    if i > 0 && kv in InOrder(nodes, l[..i], 0) {
      assert es[0] in es && es[0].key == l[i].key;
    } else {
      assert kv in es;
    }
  }

  /** The entries before leaf `i` end with the last entry of leaf `i - 1`, which has the largest key. */
  lemma LastBefore(nodes: Nodes, l: Level, lim: Limits, i: nat) returns (last: LeafKv)
    requires LeavesOk(nodes, l, lim) && 0 < i < |l|
    ensures var prev := EntriesOf(nodes, l[i - 1].child); prev != [] && last == prev[|prev| - 1]
    ensures last in InOrder(nodes, l[..i], 0) && forall kv :: kv in InOrder(nodes, l[..i], 0) ==> kv.key <= last.key
  {
    var prev := EntriesOf(nodes, l[i - 1].child);
    assert LeafOk(nodes, l, i - 1, lim);
    last := prev[|prev| - 1];
    assert l[..i] == l[..i - 1] + [l[i - 1]];
    InOrderConcat(nodes, l[..i - 1], [l[i - 1]], 0);
    assert InOrder(nodes, [l[i - 1]], 0) == prev + InOrder(nodes, [l[i - 1]][1..], 0);
    PrefixBounded(nodes, l, lim, i - 1, i - 1);
    LeafBoundsAscend(nodes, l, lim, i - 1, i);
    assert last in prev;
    forall kv | kv in prev
      ensures kv.key <= last.key
    {
      var a :| 0 <= a < |prev| && prev[a] == kv;
    }
  }

  /** Which entries a scan from `key` does not yield: those in earlier leaves. One of them has the
      key asked for exactly if the leaf before the scan's first ends with that key; and then the
      scan does yield another entry with it. */
  lemma ScanMisses(nodes: Nodes, l: Level, lim: Limits, i: nat, key: Key)
    requires LeavesOk(nodes, l, lim) && At(l, i, key)
    ensures (exists kv :: kv in InOrder(nodes, l[..i], 0) && kv.key == key)
            <==> i > 0 && EntriesOf(nodes, l[i - 1].child) != []
                 && EntriesOf(nodes, l[i - 1].child)[|EntriesOf(nodes, l[i - 1].child)| - 1].key == key
    ensures (exists kv :: kv in InOrder(nodes, l[..i], 0) && kv.key == key)
            ==> exists kv :: kv in InOrder(nodes, l[i..], 0) && kv.key == key
  {
    if i > 0 {
      LeafOfKey(nodes, l, lim, i, key);
      var last := LastBefore(nodes, l, lim, i);
      assert LeafOk(nodes, l, i, lim);
      assert EntriesOf(nodes, l[i].child)[0] in InOrder(nodes, l[i..], 0);
    }
  }

  ghost predicate DistinctKeys(es: seq<LeafKv>) {
    forall i, j :: 0 <= i < j < |es| ==> es[i].key != es[j].key
  }

  /** With distinct keys a scan from `key` misses nothing: every entry at `key` or above is in the leaves from
      that of `key` on. */
  lemma ScanComplete(nodes: Nodes, l: Level, lim: Limits, i: nat, key: Key)
    requires LeavesOk(nodes, l, lim) && At(l, i, key) && DistinctKeys(InOrder(nodes, l, 0))
    ensures forall kv: LeafKv :: kv in InOrder(nodes, l, 0) && key <= kv.key ==> kv in InOrder(nodes, l[i..], 0)
  {
    LeafOfKey(nodes, l, lim, i, key);
    ScanMisses(nodes, l, lim, i, key);
    var before, rest := InOrder(nodes, l[..i], 0), InOrder(nodes, l[i..], 0);
    forall kv: LeafKv | kv in before + rest && key <= kv.key
      ensures kv in rest
    {
      if kv in before {
        var other :| other in rest && other.key == key;
        NotInBoth(before, rest, kv, other);
      }
    }
  }

  lemma NotInBoth(before: seq<LeafKv>, rest: seq<LeafKv>, a: LeafKv, b: LeafKv)
    requires DistinctKeys(before + rest) && a in before && b in rest
    ensures a.key != b.key
  {
    var i :| 0 <= i < |before| && before[i] == a;
    var j :| 0 <= j < |rest| && rest[j] == b;
    assert (before + rest)[i] == a && (before + rest)[|before| + j] == b;
  }

  /** What a scan from `key` gives: the last entries of the tree in order, all of those above `key` and, with
      distinct keys, the one at `key`. */
  ghost predicate Yields(all: seq<LeafKv>, key: Key, es: seq<LeafKv>) {
    && SortedLeaf(es) && |es| <= |all| && es == all[|all| - |es|..]
    && (forall kv :: kv in all && key < kv.key ==> kv in es)
    && (DistinctKeys(all) ==> forall kv :: kv in all && key <= kv.key ==> kv in es)
  }

  lemma YieldsRest(before: seq<LeafKv>, key: Key, es: seq<LeafKv>)
    requires SortedLeaf(es) && forall kv :: kv in before ==> kv.key <= key
    requires DistinctKeys(before + es) ==> forall kv :: kv in before + es && key <= kv.key ==> kv in es
    ensures Yields(before + es, key, es)
  {
  }

  /** What a scan that starts at the leaf of `key` gives. */
  lemma ScanYields(nodes: Nodes, l: Level, lim: Limits, i: nat, key: Key)
    requires LeavesOk(nodes, l, lim) && At(l, i, key)
    ensures InOrder(nodes, l, 0) == InOrder(nodes, l[..i], 0) + InOrder(nodes, l[i..], 0)
    ensures forall kv :: kv in InOrder(nodes, l[..i], 0) ==> kv.key <= key
    ensures Yields(InOrder(nodes, l, 0), key, InOrder(nodes, l[i..], 0))
  {
    LeafOfKey(nodes, l, lim, i, key);
    SuffixSorted(nodes, l, lim, i);
    if DistinctKeys(InOrder(nodes, l, 0)) {
      ScanComplete(nodes, l, lim, i, key);
    }
    YieldsRest(InOrder(nodes, l[..i], 0), key, InOrder(nodes, l[i..], 0));
  }

  lemma OneEach(nodes: Nodes, l: Level, lim: Limits, i: nat)
    requires LeavesOk(nodes, l, lim) && lim.leafMax == 1 && i < |l|
    ensures InOrder(nodes, l[i..], 0) != [] && InOrder(nodes, l[i..], 0)[1..] == InOrder(nodes, l[i + 1..], 0)
    ensures i > 0 ==> InOrder(nodes, l[i..], 0)[0].key == l[i].key
  {
    assert LeafOk(nodes, l, i, lim);
    InOrderHead(nodes, l, i);
  }

  /** Where leaves hold one entry, a scan for a key there are two entries of starts at the second one. */
  lemma SecondOfTwo(nodes: Nodes, l: Level, lim: Limits, i: nat, a: LeafKv, b: LeafKv)
    requires LeavesOk(nodes, l, lim) && lim.leafMax == 1 && InOrder(nodes, l, 0) == [a, b] && a.key == b.key
    requires At(l, i, a.key)
    ensures i == 1 && InOrder(nodes, l[i..], 0) == [b]
  {
    assert l[0..] == l;
    OneEach(nodes, l, lim, 0);
    assert InOrder(nodes, l[1..], 0) == [b];
    if |l| == 1 {
      assert false;
    } else {
      OneEach(nodes, l, lim, 1);
      if |l| > 2 {
        OneEach(nodes, l, lim, 2);
      }
    }
  }

  // --------------------------------------------------------------- the leaf chain

  /** `ids` is what following next-page ids from `id` visits, up to INVALID_PAGE_ID. */
  ghost predicate IsChain(nodes: Nodes, id: PageId, ids: seq<PageId>)
    decreases |ids|
  {
    if ids == [] then id == INVALID_PAGE_ID
    else id != INVALID_PAGE_ID && id == ids[0] && id in nodes && nodes[id].Leaf? && IsChain(nodes, nodes[id].next, ids[1..])
  }

  ghost function Ids(l: Level): (ids: seq<PageId>)
    ensures |ids| == |l|
  {
    seq(|l|, i requires 0 <= i < |l| => l[i].child)
  }

  /** From any leaf the chain visits exactly the leaves from there to the right, in tree order, and ends. */
  lemma {:induction false} ChainIsLeafLevel(nodes: Nodes, l: Level, lim: Limits, i: nat)
    requires LeavesOk(nodes, l, lim) && i <= |l|
    requires forall k :: 0 <= k < |l| ==> l[k].child != INVALID_PAGE_ID
    ensures IsChain(nodes, if i < |l| then l[i].child else INVALID_PAGE_ID, Ids(l[i..]))
    decreases |l| - i
  {
    if i < |l| {
      assert LeafOk(nodes, l, i, lim);
      ChainIsLeafLevel(nodes, l, lim, i + 1);
      assert Ids(l[i..])[1..] == Ids(l[i + 1..]);
    }
  }

  /** There is only one way to follow the chain; so it has no cycle. */
  lemma {:induction false} ChainUnique(nodes: Nodes, id: PageId, a: seq<PageId>, b: seq<PageId>)
    requires IsChain(nodes, id, a) && IsChain(nodes, id, b)
    ensures a == b
    decreases |a|
  {
    if a != [] && b != [] {
      ChainUnique(nodes, nodes[id].next, a[1..], b[1..]);
      assert a == [a[0]] + a[1..] && b == [b[0]] + b[1..];
    }
  }

  // ------------------------------------------------------------------- separators

  lemma InOrderNode(nodes: Nodes, x: InternalKv, h: nat)
    requires h > 0
    ensures InOrder(nodes, [x], h) == InOrder(nodes, ChildrenOf(nodes, x.child), h - 1)
  {
  }

  /** The first child of a slot: where it stands below, and that it inherits the bound. */
  lemma FirstChild(nodes: Nodes, levels: seq<Level>, lim: Limits, h: nat, i: nat) returns (p: nat)
    requires Tree(nodes, levels, lim, 0, 0) && 0 < h < |levels| && i < |levels[h]|
    ensures ChildrenOf(nodes, levels[h][i].child) != [] && p < |levels[h - 1]|
    ensures levels[h - 1][p].child == ChildrenOf(nodes, levels[h][i].child)[0].child
    ensures levels[h - 1][p].key == levels[h][i].key && (i > 0 ==> p > 0)
  {
    TreeLevel(nodes, levels, lim, 0, 0, h);
    assert InternalOk(nodes, levels[h][i].child, MinKids(levels[h], lim), lim);
    assert InternalOk(nodes, levels[h][0].child, MinKids(levels[h], lim), lim);
    ChildSlot(nodes, levels[h], i, 0);
    p := Offset(nodes, levels[h], i);
    if i > 0 {
      OffsetsAscend(nodes, levels[h], 0, i);
    }
  }

  lemma InOrderStarts(nodes: Nodes, ks: Level, y: InternalKv, h: nat)
    requires ks != [] && ks[0].child == y.child
    ensures InOrder(nodes, ks, h) == InOrder(nodes, [y], h) + InOrder(nodes, ks[1..], h)
  {
  }

  lemma {:induction false} SlotFirstKey(nodes: Nodes, levels: seq<Level>, lim: Limits, h: nat, i: nat)
    requires Tree(nodes, levels, lim, 0, 0) && h < |levels| && i < |levels[h]|
    ensures InOrder(nodes, [levels[h][i]], h) != []
    ensures i > 0 ==> InOrder(nodes, [levels[h][i]], h)[0].key == levels[h][i].key
  {
    var x := levels[h][i];
    if h == 0 {
      assert LeafOk(nodes, levels[0], i, lim);
      assert InOrder(nodes, [x], 0) == EntriesOf(nodes, x.child) + InOrder(nodes, [x][1..], 0);
    } else {
      var p := FirstChild(nodes, levels, lim, h, i);
      SlotFirstKey(nodes, levels, lim, h - 1, p);
      InOrderNode(nodes, x, h);
      InOrderStarts(nodes, ChildrenOf(nodes, x.child), levels[h - 1][p], h - 1);
    }
  }

  lemma AllSorted(nodes: Nodes, levels: seq<Level>, lim: Limits, h: nat)
    requires Tree(nodes, levels, lim, 0, 0) && h < |levels|
    ensures SortedLeaf(InOrder(nodes, levels[h], h))
  {
    InOrderIsLeafLevel(nodes, levels, lim, h);
    SuffixSorted(nodes, levels[0], lim, 0);
    assert levels[0][0..] == levels[0];
  }

  /** A child that is not the first of its node keeps its separator as its bound. */
  lemma ChildPlace(nodes: Nodes, levels: seq<Level>, lim: Limits, h: nat, i: nat, q: nat) returns (p: nat)
    requires Tree(nodes, levels, lim, 0, 0) && 0 < h < |levels| && i < |levels[h]|
    requires 0 < q < |ChildrenOf(nodes, levels[h][i].child)|
    ensures 0 < p < |levels[h - 1]| && levels[h - 1][p] == ChildrenOf(nodes, levels[h][i].child)[q]
  {
    TreeLevel(nodes, levels, lim, 0, 0, h);
    ChildSlot(nodes, levels[h], i, q);
    p := Offset(nodes, levels[h], i) + q;
  }

  lemma ChildFirstKey(nodes: Nodes, levels: seq<Level>, lim: Limits, h: nat, i: nat, q: nat)
    requires Tree(nodes, levels, lim, 0, 0) && 0 < h < |levels| && i < |levels[h]|
    requires 0 < q < |ChildrenOf(nodes, levels[h][i].child)|
    ensures var x := ChildrenOf(nodes, levels[h][i].child)[q];
            InOrder(nodes, [x], h - 1) != [] && InOrder(nodes, [x], h - 1)[0].key == x.key
  {
    var p := ChildPlace(nodes, levels, lim, h, i, q);
    SlotFirstKey(nodes, levels, lim, h - 1, p);
  }

  /** Each stored separator is the smallest key of the subtree on its right, and no key of the
      subtrees on its left is above it. */
  lemma SeparatorsBound(nodes: Nodes, levels: seq<Level>, lim: Limits, h: nat, i: nat, q: nat)
    requires Tree(nodes, levels, lim, 0, 0) && 0 < h < |levels| && i < |levels[h]|
    requires 0 < q < |ChildrenOf(nodes, levels[h][i].child)|
    ensures var ks := ChildrenOf(nodes, levels[h][i].child);
            var right := InOrder(nodes, [ks[q]], h - 1);
            && right != [] && right[0].key == ks[q].key
            && (forall kv :: kv in right ==> ks[q].key <= kv.key)
            && forall kv :: kv in InOrder(nodes, ks[..q], h - 1) ==> kv.key <= ks[q].key
  {
    ChildFirstKey(nodes, levels, lim, h, i, q);
    NodeEntriesSorted(nodes, levels, lim, h, i);
    SlotBounds(nodes, ChildrenOf(nodes, levels[h][i].child), h - 1, q);
  }

  lemma SlotBounds(nodes: Nodes, ks: Level, h: nat, q: nat)
    requires SortedLeaf(InOrder(nodes, ks, h)) && q < |ks| && InOrder(nodes, [ks[q]], h) != []
    ensures var right := InOrder(nodes, [ks[q]], h);
            && (forall kv :: kv in right ==> right[0].key <= kv.key)
            && forall kv :: kv in InOrder(nodes, ks[..q], h) ==> kv.key <= right[0].key
  {
    InOrderSplit(nodes, ks, q, h);
    SortedMiddle(InOrder(nodes, ks[..q], h), InOrder(nodes, [ks[q]], h), InOrder(nodes, ks[q + 1..], h));
  }

  lemma NodeEntriesSorted(nodes: Nodes, levels: seq<Level>, lim: Limits, h: nat, i: nat)
    requires Tree(nodes, levels, lim, 0, 0) && 0 < h < |levels| && i < |levels[h]|
    ensures SortedLeaf(InOrder(nodes, ChildrenOf(nodes, levels[h][i].child), h - 1))
  {
    var x := levels[h][i];
    AllSorted(nodes, levels, lim, h);
    InOrderSplit(nodes, levels[h], i, h);
    InOrderNode(nodes, x, h);
    SortedMiddle(InOrder(nodes, levels[h][..i], h), InOrder(nodes, [x], h), InOrder(nodes, levels[h][i + 1..], h));
  }

  lemma SortedMiddle(a: seq<LeafKv>, b: seq<LeafKv>, c: seq<LeafKv>)
    requires SortedLeaf(a + b + c)
    ensures SortedLeaf(b)
    ensures b != [] ==> (forall kv :: kv in b ==> b[0].key <= kv.key) && forall kv :: kv in a ==> kv.key <= b[0].key
  {
    var s := a + b + c;
    assert forall k :: 0 <= k < |b| ==> s[|a| + k] == b[k];
    assert forall k :: 0 <= k < |a| ==> s[k] == a[k];
  }

  // ----------------------------------------------------------- parents and occupancy

  /** Every page but the root is listed by exactly one parent, at exactly one place. */
  lemma OneParent(nodes: Nodes, levels: seq<Level>, lim: Limits, h: nat, p: nat)
    requires Tree(nodes, levels, lim, 0, 0) && h + 1 < |levels| && p < |levels[h]|
    ensures exists g: nat, i: nat, q: nat :: ListedAt(nodes, levels, g, i, q, levels[h][p].child)
    ensures forall g: nat, i: nat, q: nat, g': nat, i': nat, q': nat ::
              (ListedAt(nodes, levels, g, i, q, levels[h][p].child) && ListedAt(nodes, levels, g', i', q', levels[h][p].child))
              ==> g == g' && i == i' && q == q'
  {
    TreeLevel(nodes, levels, lim, 0, 0, h + 1);
    var i, q := FindParent(nodes, levels[h + 1], p);
    ChildSlot(nodes, levels[h + 1], i, q);
    assert ListedAt(nodes, levels, h + 1, i, q, levels[h][p].child);
    forall g: nat, i: nat, q: nat, g': nat, i': nat, q': nat
      | ListedAt(nodes, levels, g, i, q, levels[h][p].child) && ListedAt(nodes, levels, g', i', q', levels[h][p].child)
      ensures g == g' && i == i' && q == q'
    {
      ListedOnce(nodes, levels, lim, g, i, q, g', i', q', levels[h][p].child);
    }
  }

  /** Entry `q` of node `i` on level `g` is page `id`. */
  ghost predicate ListedAt(nodes: Nodes, levels: seq<Level>, g: nat, i: nat, q: nat, id: PageId) {
    && 0 < g < |levels| && i < |levels[g]| && q < |ChildrenOf(nodes, levels[g][i].child)|
    && ChildrenOf(nodes, levels[g][i].child)[q].child == id
  }

  /** Where an entry of a node stands on the level below. */
  lemma ListedSlot(nodes: Nodes, levels: seq<Level>, lim: Limits, g: nat, i: nat, q: nat, id: PageId)
    requires Tree(nodes, levels, lim, 0, 0) && ListedAt(nodes, levels, g, i, q, id)
    ensures Offset(nodes, levels[g], i) + q < |levels[g - 1]|
    ensures PageAt(levels, g - 1, Offset(nodes, levels[g], i) + q) == id
  {
    TreeLevel(nodes, levels, lim, 0, 0, g);
    ChildSlot(nodes, levels[g], i, q);
  }

  lemma SlotOfOneParent(nodes: Nodes, l: Level, i: nat, q: nat, i': nat, q': nat)
    requires i < |l| && q < |ChildrenOf(nodes, l[i].child)| && i' < |l| && q' < |ChildrenOf(nodes, l[i'].child)|
    requires Offset(nodes, l, i) + q == Offset(nodes, l, i') + q'
    ensures i == i' && q == q'
  {
    if i < i' {
      OffsetsAscend(nodes, l, i, i');
    } else if i' < i {
      OffsetsAscend(nodes, l, i', i);
    }
  }

  lemma ListedOnce(nodes: Nodes, levels: seq<Level>, lim: Limits, g: nat, i: nat, q: nat, g': nat, i': nat, q': nat, id: PageId)
    requires Tree(nodes, levels, lim, 0, 0)
    requires ListedAt(nodes, levels, g, i, q, id) && ListedAt(nodes, levels, g', i', q', id)
    ensures g == g' && i == i' && q == q'
  {
    ListedSlot(nodes, levels, lim, g, i, q, id);
    ListedSlot(nodes, levels, lim, g', i', q', id);
    assert g == g';
    SlotOfOneParent(nodes, levels[g], i, q, i', q');
  }

  lemma {:induction false} FindParent(nodes: Nodes, l: Level, p: nat) returns (i: nat, q: nat)
    requires p < |Below(nodes, l)|
    ensures i < |l| && q < |ChildrenOf(nodes, l[i].child)| && p == Offset(nodes, l, i) + q
  {
    var n := |l| - 1;
    if l == [] {
      assert false;
    } else {
      BelowSplit(nodes, l, n);
      assert l[n + 1..] == [];
      if p >= Offset(nodes, l, n) {
        i, q := n, p - Offset(nodes, l, n);
      } else {
        i, q := FindParent(nodes, l[..n], p);
        assert l[..n][..i] == l[..i];
      }
    }
  }

  lemma {:induction false} BelowAtLeast(nodes: Nodes, l: Level, n: nat, lim: Limits)
    requires AllInternalOk(nodes, l, n, lim)
    ensures |Below(nodes, l)| >= |l| * n
  {
    if l != [] {
      assert InternalOk(nodes, l[0].child, n, lim);
      assert forall a :: 0 <= a < |l[1..]| ==> l[1..][a] == l[a + 1];
      BelowAtLeast(nodes, l[1..], n, lim);
      assert |l| * n == n + |l[1..]| * n;
    }
  }

  lemma {:induction false} EntriesAtLeast(nodes: Nodes, l: Level, n: nat)
    requires forall i :: 0 <= i < |l| ==> |EntriesOf(nodes, l[i].child)| >= n
    ensures |InOrder(nodes, l, 0)| >= |l| * n
  {
    if l != [] {
      assert forall a :: 0 <= a < |l[1..]| ==> l[1..][a] == l[a + 1];
      EntriesAtLeast(nodes, l[1..], n);
      assert |l| * n == n + |l[1..]| * n;
    }
  }

  function Pow(b: nat, e: nat): (r: nat) {
    if e == 0 then 1 else b * Pow(b, e - 1)
  }

  lemma {:induction false} PowPositive(b: nat, e: nat)
    requires b > 0
    ensures Pow(b, e) > 0
  {
    if e > 0 {
      PowPositive(b, e - 1);
    }
  }

  lemma DoublePow(n: nat, d: nat)
    requires d > 0
    ensures 2 * Pow(n, d - 1) * n == 2 * Pow(n, d)
  {
  }

  /** `d` levels below the children of the root, a level has at least two to the d-th power nodes,
      counted in halves of an internal node. */
  lemma {:induction false} WidthAtLeast(nodes: Nodes, levels: seq<Level>, lim: Limits, d: nat)
    requires LimitsOk(lim) && Tree(nodes, levels, lim, 0, 0) && d + 2 <= |levels|
    ensures |levels[|levels| - 2 - d]| >= 2 * Pow((lim.internalMax + 1) / 2, d)
  {
    var n := (lim.internalMax + 1) / 2;
    if d > 0 {
      WidthAtLeast(nodes, levels, lim, d - 1);
      PowPositive(n, d - 1);
      var m := |levels| - 1 - d;
      TreeLevel(nodes, levels, lim, 0, 0, m);
      BelowAtLeast(nodes, levels[m], n, lim);
      MulMonotone(|levels[m]|, 2 * Pow(n, d - 1), n);
      DoublePow(n, d);
    }
  }

  lemma MulMonotone(a: nat, b: nat, n: nat)
    requires a >= b
    ensures a * n >= b * n
  {
  }

  /** The height bound: every node but the root stays half full, so a tree with `h` internal levels
      holds at least 2 * half^(h - 1) leaves, each half full. */
  lemma HeightBound(nodes: Nodes, levels: seq<Level>, lim: Limits)
    requires LimitsOk(lim) && Tree(nodes, levels, lim, 0, 0) && |levels| >= 2
    ensures |InOrder(nodes, levels[0], 0)|
            >= 2 * Pow((lim.internalMax + 1) / 2, |levels| - 2) * ((lim.leafMax + 1) / 2)
  {
    var n := (lim.leafMax + 1) / 2;
    WidthAtLeast(nodes, levels, lim, |levels| - 2);
    PowPositive((lim.internalMax + 1) / 2, |levels| - 2);
    forall i | 0 <= i < |levels[0]|
      ensures |EntriesOf(nodes, levels[0][i].child)| >= n
    {
      assert LeafOk(nodes, levels[0], i, lim);
    }
    EntriesAtLeast(nodes, levels[0], n);
    MulMonotone(|levels[0]|, 2 * Pow((lim.internalMax + 1) / 2, |levels| - 2), n);
  }
}
