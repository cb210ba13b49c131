/** The page codec of the B+tree: little-endian integers, and leaf and internal nodes laid
    out in an 8192-byte page. The byte loops of the program are methods; each is proved
    equal to a layout function, and the layout functions are proved to round-trip. */
module Codec {
  import opened Common

  type Key = x: int | -0x8000_0000_0000_0000 <= x < 0x8000_0000_0000_0000

  const INVALID_KEY: Key := -0x8000_0000_0000_0000
  const HEADER_SIZE: int := 16
  const LEAF_NODE: byte := 1
  const INTERNAL_NODE: byte := 0
  const LEAF_PAGE_MAX: u32 := 511
  const INTERNAL_PAGE_MAX: u32 := 681

  datatype RecordId = RecordId(pageId: PageId, slotNum: u32)
  datatype LeafKv = LeafKv(key: Key, rid: RecordId)
  datatype InternalKv = InternalKv(key: Key, child: PageId)

  /** What a page holds when read as a tree node. `Corrupt` stands for a node type byte that is
      neither 0 nor 1, or an entry count that would run past the end of the page. */
  datatype Node =
    | Leaf(next: PageId, entries: seq<LeafKv>)
    | Internal(kids: seq<InternalKv>)
    | Corrupt

  // ---------------------------------------------------------------- integers

  function Pow256(n: nat): (r: nat)
    ensures r > 0
  {
    if n == 0 then 1 else 256 * Pow256(n - 1)
  }

  /** The `n` low-order bytes of `v`, least significant first. */
  function LittleEndian(v: nat, n: nat): (r: seq<byte>)
    ensures |r| == n
  {
    if n == 0 then [] else [v % 256] + LittleEndian(v / 256, n - 1)
  }

  function FromLittleEndian(b: seq<byte>): (v: nat) {
    if b == [] then 0 else b[0] + 256 * FromLittleEndian(b[1..])
  }

  lemma {:induction false} FromLittleEndianBound(b: seq<byte>)
    ensures FromLittleEndian(b) < Pow256(|b|)
  {
    if b != [] {
      FromLittleEndianBound(b[1..]);
    }
  }

  lemma {:induction false} LittleEndianRoundTrip(v: nat, n: nat)
    requires v < Pow256(n)
    ensures FromLittleEndian(LittleEndian(v, n)) == v
  {
    if n > 0 {
      LittleEndianRoundTrip(v / 256, n - 1);
      assert LittleEndian(v, n)[1..] == LittleEndian(v / 256, n - 1);
    }
  }

  function U32Bytes(v: u32): (r: seq<byte>)
    ensures |r| == 4
  {
    LittleEndian(v, 4)
  }

  function U32At(b: seq<byte>, off: nat): (v: u32)
    requires off + 4 <= |b|
  {
    Pow256Values();
    FromLittleEndianBound(b[off..off + 4]);
    FromLittleEndian(b[off..off + 4])
  }

  lemma Pow256Values()
    ensures Pow256(4) == 0x1_0000_0000
    ensures Pow256(8) == 0x1_0000_0000_0000_0000
  {
  }

  /** Two's complement: a negative key is stored as `key + 2^64`. */
  function KeyBytes(k: Key): (r: seq<byte>)
    ensures |r| == 8
  {
    LittleEndian(if k < 0 then k + 0x1_0000_0000_0000_0000 else k, 8)
  }

  function KeyAt(b: seq<byte>, off: nat): (k: Key)
    requires off + 8 <= |b|
  {
    Pow256Values();
    FromLittleEndianBound(b[off..off + 8]);
    var v := FromLittleEndian(b[off..off + 8]);
    if v < 0x8000_0000_0000_0000 then v else v - 0x1_0000_0000_0000_0000
  }

  lemma KeyRoundTrip(k: Key, b: seq<byte>, off: nat)
    requires off + 8 <= |b| && b[off..off + 8] == KeyBytes(k)
    ensures KeyAt(b, off) == k
  {
    Pow256Values();
    LittleEndianRoundTrip(if k < 0 then k + 0x1_0000_0000_0000_0000 else k, 8);
  }

  lemma U32RoundTrip(v: u32, b: seq<byte>, off: nat)
    requires off + 4 <= |b| && b[off..off + 4] == U32Bytes(v)
    ensures U32At(b, off) == v
  {
    Pow256Values();
    LittleEndianRoundTrip(v, 4);
  }

  // ------------------------------------------------------------ page layouts

  function LeafKvBytes(kv: LeafKv): (r: seq<byte>)
    ensures |r| == 16
  {
    KeyBytes(kv.key) + U32Bytes(kv.rid.pageId) + U32Bytes(kv.rid.slotNum)
  }

  function LeafKvAt(b: seq<byte>, off: nat): (kv: LeafKv)
    requires off + 16 <= |b|
  {
    LeafKv(KeyAt(b, off), RecordId(U32At(b, off + 8), U32At(b, off + 12)))
  }

  function InternalKvBytes(kv: InternalKv): (r: seq<byte>)
    ensures |r| == 12
  {
    KeyBytes(kv.key) + U32Bytes(kv.child)
  }

  function InternalKvAt(b: seq<byte>, off: nat): (kv: InternalKv)
    requires off + 12 <= |b|
  {
    InternalKv(KeyAt(b, off), U32At(b, off + 8))
  }

  function LeafEntriesBytes(es: seq<LeafKv>): (r: seq<byte>)
    ensures |r| == 16 * |es|
  {
    if es == [] then [] else LeafEntriesBytes(es[..|es| - 1]) + LeafKvBytes(es[|es| - 1])
  }

  function InternalEntriesBytes(es: seq<InternalKv>): (r: seq<byte>)
    ensures |r| == 12 * |es|
  {
    if es == [] then [] else InternalEntriesBytes(es[..|es| - 1]) + InternalKvBytes(es[|es| - 1])
  }

  /** A leaf laid over page `p`. Bytes 1..4 and everything past the last entry keep what the
      page held before. */
  function LeafPage(next: PageId, es: seq<LeafKv>, p: Page): (r: Page)
    requires |es| <= LEAF_PAGE_MAX
  {
    LeafHeader(next, |es|, p) + LeafEntriesBytes(es) + p[16 + 16 * |es|..]
  }

  /** An internal node laid over page `p`. It has no next pointer: bytes 12..16 are left alone. */
  function InternalPage(es: seq<InternalKv>, p: Page): (r: Page)
    requires |es| <= INTERNAL_PAGE_MAX
  {
    InternalHeader(|es|, p) + InternalEntriesBytes(es) + p[16 + 12 * |es|..]
  }

  /** A page decoded as a leaf, whatever its type byte. */
  function LeafOf(p: Page): (r: Node) {
    var n := U32At(p, 4);
    if n <= LEAF_PAGE_MAX then Leaf(U32At(p, 12), seq(n, i requires 0 <= i < n => LeafKvAt(p, 16 + 16 * i))) else Corrupt
  }

  /** A page decoded as an internal node, whatever its type byte. */
  function InternalOf(p: Page): (r: Node) {
    var n := U32At(p, 4);
    if n <= INTERNAL_PAGE_MAX then Internal(seq(n, i requires 0 <= i < n => InternalKvAt(p, 16 + 12 * i))) else Corrupt
  }

  /** How the tree reads a page. */
  function NodeOf(p: Page): (r: Node) {
    if p[0] == LEAF_NODE then LeafOf(p)
    else if p[0] == INTERNAL_NODE then InternalOf(p)
    else Corrupt
  }

  lemma {:induction false} LeafEntriesSlice(es: seq<LeafKv>, i: nat)
    requires i < |es|
    ensures LeafEntriesBytes(es)[16 * i..16 * i + 16] == LeafKvBytes(es[i])
  {
    var front := LeafEntriesBytes(es[..|es| - 1]);
    assert LeafEntriesBytes(es) == front + LeafKvBytes(es[|es| - 1]);
    if i < |es| - 1 {
      LeafEntriesSlice(es[..|es| - 1], i);
      assert LeafEntriesBytes(es)[16 * i..16 * i + 16] == front[16 * i..16 * i + 16];
    }
  }

  lemma {:induction false} InternalEntriesSlice(es: seq<InternalKv>, i: nat)
    requires i < |es|
    ensures InternalEntriesBytes(es)[12 * i..12 * i + 12] == InternalKvBytes(es[i])
  {
    var front := InternalEntriesBytes(es[..|es| - 1]);
    assert InternalEntriesBytes(es) == front + InternalKvBytes(es[|es| - 1]);
    if i < |es| - 1 {
      InternalEntriesSlice(es[..|es| - 1], i);
      assert InternalEntriesBytes(es)[12 * i..12 * i + 12] == front[12 * i..12 * i + 12];
    }
  }

  lemma SliceOfSlice(b: seq<byte>, off: nat, len: nat, i: nat, j: nat)
    requires off + len <= |b| && i <= j <= len
    ensures b[off..off + len][i..j] == b[off + i..off + j]
  {
    var l, r := b[off..off + len][i..j], b[off + i..off + j];
    assert |l| == |r| && forall k :: 0 <= k < |l| ==> l[k] == r[k];
  }

  lemma LeafKvRoundTrip(kv: LeafKv, b: seq<byte>, off: nat)
    requires off + 16 <= |b| && b[off..off + 16] == LeafKvBytes(kv)
    ensures LeafKvAt(b, off) == kv
  {
    var s, k, p, t := b[off..off + 16], KeyBytes(kv.key), U32Bytes(kv.rid.pageId), U32Bytes(kv.rid.slotNum);
    assert s == k + p + t;
    assert s[..8] == k && s[8..12] == p && s[12..] == t;
    SliceOfSlice(b, off, 16, 0, 8);
    SliceOfSlice(b, off, 16, 8, 12);
    SliceOfSlice(b, off, 16, 12, 16);
    KeyRoundTrip(kv.key, b, off);
    U32RoundTrip(kv.rid.pageId, b, off + 8);
    U32RoundTrip(kv.rid.slotNum, b, off + 12);
  }

  lemma InternalKvRoundTrip(kv: InternalKv, b: seq<byte>, off: nat)
    requires off + 12 <= |b| && b[off..off + 12] == InternalKvBytes(kv)
    ensures InternalKvAt(b, off) == kv
  {
    var s := b[off..off + 12];
    assert b[off..off + 8] == s[..8] == KeyBytes(kv.key);
    assert b[off + 8..off + 12] == s[8..12] == U32Bytes(kv.child);
    KeyRoundTrip(kv.key, b, off);
    U32RoundTrip(kv.child, b, off + 8);
  }

  lemma LeafEntryAt(next: PageId, es: seq<LeafKv>, p: Page, i: nat)
    requires i < |es| <= LEAF_PAGE_MAX
    ensures LeafKvAt(LeafPage(next, es, p), 16 + 16 * i) == es[i]
  {
    var r := LeafPage(next, es, p);
    LeafEntriesSlice(es, i);
    assert r[16..16 + 16 * |es|] == LeafEntriesBytes(es);
    assert r[16 + 16 * i..16 + 16 * i + 16] == LeafEntriesBytes(es)[16 * i..16 * i + 16];
    LeafKvRoundTrip(es[i], r, 16 + 16 * i);
  }

  /** Reading back an encoded leaf gives the leaf, whatever the page held before. */
  lemma LeafRoundTrip(next: PageId, es: seq<LeafKv>, p: Page)
    requires |es| <= LEAF_PAGE_MAX
    ensures NodeOf(LeafPage(next, es, p)) == Leaf(next, es)
  {
    var r := LeafPage(next, es, p);
    assert r[4..8] == U32Bytes(|es|);
    U32RoundTrip(|es|, r, 4);
    assert r[12..16] == U32Bytes(next);
    U32RoundTrip(next, r, 12);
    forall i | 0 <= i < |es|
      ensures LeafKvAt(r, 16 + 16 * i) == es[i]
    {
      LeafEntryAt(next, es, p, i);
    }
  }

  lemma InternalEntryAt(es: seq<InternalKv>, p: Page, i: nat)
    requires i < |es| <= INTERNAL_PAGE_MAX
    ensures InternalKvAt(InternalPage(es, p), 16 + 12 * i) == es[i]
  {
    var r := InternalPage(es, p);
    InternalEntriesSlice(es, i);
    assert r[16..16 + 12 * |es|] == InternalEntriesBytes(es);
    assert r[16 + 12 * i..16 + 12 * i + 12] == InternalEntriesBytes(es)[12 * i..12 * i + 12];
    InternalKvRoundTrip(es[i], r, 16 + 12 * i);
  }

  /** Reading back an encoded internal node gives the node, whatever the page held before. */
  lemma InternalRoundTrip(es: seq<InternalKv>, p: Page)
    requires |es| <= INTERNAL_PAGE_MAX
    ensures NodeOf(InternalPage(es, p)) == Internal(es)
  {
    var r := InternalPage(es, p);
    assert r[4..8] == U32Bytes(|es|);
    U32RoundTrip(|es|, r, 4);
    forall i | 0 <= i < |es|
      ensures InternalKvAt(r, 16 + 12 * i) == es[i]
    {
      InternalEntryAt(es, p, i);
    }
  }

  // ------------------------------------------------- the byte loops of the program

  /** `b` with `src` written over it from offset `off` on. */
  function Splice(b: seq<byte>, off: nat, src: seq<byte>): (r: seq<byte>)
    requires off + |src| <= |b|
    ensures |r| == |b|
  {
    b[..off] + src + b[off + |src|..]
  }

  /** `bytes[off..off + |src|].copy_from_slice(src)`. */
  method CopyFromSlice(bytes: array<byte>, off: nat, src: seq<byte>)
    requires off + |src| <= bytes.Length
    modifies bytes
    ensures bytes[..] == Splice(old(bytes[..]), off, src)
  {
    forall i | 0 <= i < |src| {
      bytes[off + i] := src[i];
    }
  }

  /** Two adjacent writes extend the written prefix `done` by both. */
  lemma SpliceTwice(b: seq<byte>, done: seq<byte>, rest: seq<byte>, x: seq<byte>, y: seq<byte>)
    requires b == done + rest && |x| + |y| <= |rest|
    ensures Splice(Splice(b, |done|, x), |done| + |x|, y) == done + (x + y) + rest[|x| + |y|..]
  {
  }

  function LeafHeader(next: PageId, n: u32, p: Page): (r: seq<byte>)
    ensures |r| == 16
  {
    [LEAF_NODE] + p[1..4] + U32Bytes(n) + U32Bytes(LEAF_PAGE_MAX) + U32Bytes(next)
  }

  function InternalHeader(n: u32, p: Page): (r: seq<byte>)
    ensures |r| == 16
  {
    [INTERNAL_NODE] + p[1..4] + U32Bytes(n) + U32Bytes(INTERNAL_PAGE_MAX) + p[12..16]
  }

  lemma LeafHeaderWritten(next: PageId, n: u32, p: Page)
    ensures Splice(Splice(Splice(p[0 := LEAF_NODE], 4, U32Bytes(n)), 8, U32Bytes(LEAF_PAGE_MAX)), 12, U32Bytes(next))
            == LeafHeader(next, n, p) + p[16..]
  {
  }

  lemma InternalHeaderWritten(n: u32, p: Page)
    ensures Splice(Splice(p[0 := INTERNAL_NODE], 4, U32Bytes(n)), 8, U32Bytes(INTERNAL_PAGE_MAX))
            == InternalHeader(n, p) + p[16..]
  {
  }

  lemma LeafEntryWritten(b: seq<byte>, done: seq<byte>, rest: seq<byte>, kv: LeafKv)
    requires b == done + rest && 16 <= |rest|
    ensures Splice(Splice(Splice(b, |done|, KeyBytes(kv.key)), |done| + 8, U32Bytes(kv.rid.pageId)),
              |done| + 12, U32Bytes(kv.rid.slotNum))
            == done + LeafKvBytes(kv) + rest[16..]
  {
  }

  lemma LeafPrefixGrows(head: seq<byte>, es: seq<LeafKv>, i: nat)
    requires i < |es|
    ensures head + LeafEntriesBytes(es[..i + 1]) == head + LeafEntriesBytes(es[..i]) + LeafKvBytes(es[i])
  {
    assert es[..i + 1][..i] == es[..i];
  }

  lemma InternalPrefixGrows(head: seq<byte>, es: seq<InternalKv>, i: nat)
    requires i < |es|
    ensures head + InternalEntriesBytes(es[..i + 1]) == head + InternalEntriesBytes(es[..i]) + InternalKvBytes(es[i])
  {
    assert es[..i + 1][..i] == es[..i];
  }

  /** `LeafNode::encode`. */
  method EncodeLeaf(next: PageId, entries: seq<LeafKv>, bytes: array<byte>)
    requires bytes.Length == PAGE_SIZE && |entries| <= LEAF_PAGE_MAX
    modifies bytes
    ensures bytes[..] == LeafPage(next, entries, old(bytes[..]))
  {
    ghost var p: Page := bytes[..];
    bytes[0] := LEAF_NODE;
    assert bytes[..] == p[0 := LEAF_NODE];
    CopyFromSlice(bytes, 4, U32Bytes(|entries|));
    CopyFromSlice(bytes, 8, U32Bytes(LEAF_PAGE_MAX));
    CopyFromSlice(bytes, 12, U32Bytes(next));
    LeafHeaderWritten(next, |entries|, p);
    ghost var head := LeafHeader(next, |entries|, p);
    ghost var done := head;
    var off := HEADER_SIZE;
    for i := 0 to |entries|
      invariant off == 16 + 16 * i
      invariant done == head + LeafEntriesBytes(entries[..i])
      invariant bytes[..] == done + p[off..]
    {
      var kv := entries[i];
      LeafEntryWritten(bytes[..], done, p[off..], kv);
      CopyFromSlice(bytes, off, KeyBytes(kv.key));
      CopyFromSlice(bytes, off + 8, U32Bytes(kv.rid.pageId));
      CopyFromSlice(bytes, off + 12, U32Bytes(kv.rid.slotNum));
      assert p[off..][16..] == p[off + 16..];
      LeafPrefixGrows(head, entries, i);
      done := done + LeafKvBytes(kv);
      off := off + 16;
    }
    assert entries[..|entries|] == entries;
  }

  /** `InternalNode::encode`. */
  method EncodeInternal(entries: seq<InternalKv>, bytes: array<byte>)
    requires bytes.Length == PAGE_SIZE && |entries| <= INTERNAL_PAGE_MAX
    modifies bytes
    ensures bytes[..] == InternalPage(entries, old(bytes[..]))
  {
    ghost var p: Page := bytes[..];
    bytes[0] := INTERNAL_NODE;
    assert bytes[..] == p[0 := INTERNAL_NODE];
    CopyFromSlice(bytes, 4, U32Bytes(|entries|));
    CopyFromSlice(bytes, 8, U32Bytes(INTERNAL_PAGE_MAX));
    InternalHeaderWritten(|entries|, p);
    ghost var head := InternalHeader(|entries|, p);
    ghost var done := head;
    var off := HEADER_SIZE;
    for i := 0 to |entries|
      invariant off == 16 + 12 * i
      invariant done == head + InternalEntriesBytes(entries[..i])
      invariant bytes[..] == done + p[off..]
    {
      var kv := entries[i];
      SpliceTwice(bytes[..], done, p[off..], KeyBytes(kv.key), U32Bytes(kv.child));
      CopyFromSlice(bytes, off, KeyBytes(kv.key));
      CopyFromSlice(bytes, off + 8, U32Bytes(kv.child));
      assert p[off..][12..] == p[off + 12..];
      InternalPrefixGrows(head, entries, i);
      done := done + InternalKvBytes(kv);
      off := off + 12;
    }
    assert entries[..|entries|] == entries;
  }

  /** `LeafNode::decode`, which takes any page; the panic is an entry running past the end of the page. */
  method DecodeLeaf(bytes: Page) returns (r: Outcome<(PageId, seq<LeafKv>)>)
    ensures r == match LeafOf(bytes)
                 case Leaf(next, entries) => Done((next, entries))
                 case _ => Panic
  {
    var currentSize := U32At(bytes, 4);
    var next := U32At(bytes, 12);
    var entries: seq<LeafKv> := [];
    var off := HEADER_SIZE;
    for i := 0 to currentSize
      invariant off == 16 + 16 * i && off <= PAGE_SIZE
      invariant |entries| == i
      invariant forall j :: 0 <= j < i ==> entries[j] == LeafKvAt(bytes, 16 + 16 * j)
    {
      if off + 16 > PAGE_SIZE {
        return Panic;
      }
      entries := entries + [LeafKvAt(bytes, off)];
      off := off + 16;
    }
    assert LeafOf(bytes).Leaf? ==> LeafOf(bytes).entries == entries;
    return Done((next, entries));
  }

  /** `InternalNode::decode`. */
  method DecodeInternal(bytes: Page) returns (r: Outcome<seq<InternalKv>>)
    ensures r == match InternalOf(bytes)
                 case Internal(kids) => Done(kids)
                 case _ => Panic
  {
    var currentSize := U32At(bytes, 4);
    var entries: seq<InternalKv> := [];
    var off := HEADER_SIZE;
    for i := 0 to currentSize
      invariant off == 16 + 12 * i && off <= PAGE_SIZE
      invariant |entries| == i
      invariant forall j :: 0 <= j < i ==> entries[j] == InternalKvAt(bytes, 16 + 12 * j)
    {
      if off + 12 > PAGE_SIZE {
        return Panic;
      }
      entries := entries + [InternalKvAt(bytes, off)];
      off := off + 12;
    }
    assert InternalOf(bytes).Internal? ==> InternalOf(bytes).kids == entries;
    return Done(entries);
  }

  // ------------------------------------------------------------ searching a node

  ghost predicate SortedLeaf(es: seq<LeafKv>) {
    forall i, j :: 0 <= i < j < |es| ==> es[i].key <= es[j].key
  }

  ghost predicate SortedKids(es: seq<InternalKv>) {
    forall i, j :: 0 <= i < j < |es| ==> es[i].key <= es[j].key
  }

  /** `i` is the last slot of `es` whose key does not exceed `key`. */
  ghost predicate At(es: seq<InternalKv>, i: int, key: Key) {
    0 <= i < |es| && es[i].key <= key && (i + 1 < |es| ==> key < es[i + 1].key)
  }

  /** `LeafNode::find_kv`: with duplicates, some entry under the key. */
  method FindKv(entries: seq<LeafKv>, key: Key) returns (res: Option<LeafKv>)
    requires SortedLeaf(entries)
    ensures res.Some? ==> res.value in entries && res.value.key == key
    ensures res.None? ==> forall kv :: kv in entries ==> kv.key != key
  {
    var low, high := 0, |entries|;
    res := None;
    while low < high
      invariant 0 <= low <= high <= |entries|
      invariant forall i :: 0 <= i < low ==> entries[i].key < key
      invariant forall i :: high <= i < |entries| ==> key < entries[i].key
      invariant res.None?
    {
      var mid := low + (high - low) / 2;
      if entries[mid].key <= key {
        low := mid + 1;
      } else {
        high := mid;
      }
      if entries[mid].key == key {
        res := Some(entries[mid]);
        break;
      }
    }
  }

  /** `InternalNode::find_child_index`: the last slot whose key is at most `key`. The final
      `low - 1` underflows, and the program panics, exactly when there is no such slot. */
  method FindChildIndex(entries: seq<InternalKv>, key: Key) returns (r: Outcome<nat>)
    requires SortedKids(entries)
    ensures r.Done? ==> At(entries, r.value, key)
    ensures r.Panic? <==> forall kv :: kv in entries ==> key < kv.key
  {
    var low, high := 0, |entries|;
    while low < high
      invariant 0 <= low <= high <= |entries|
      invariant forall i :: 0 <= i < low ==> entries[i].key <= key
      invariant forall i :: high <= i < |entries| ==> key < entries[i].key
    {
      var mid := low + (high - low) / 2;
      if entries[mid].key <= key {
        low := mid + 1;
      } else {
        high := mid;
      }
    }
    if low == 0 {
      return Panic;
    }
    assert entries[low - 1] in entries;
    return Done(low - 1);
  }
}
