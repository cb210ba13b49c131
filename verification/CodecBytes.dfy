/** The encoded pages byte by byte, in plain numbers. */
module CodecBytes {
  import opened Common
  import opened Codec

  /** Byte `k` is the digit of 256 to the `k`. */
  lemma {:induction false} DigitAt(v: nat, n: nat, k: nat)
    requires k < n
    ensures LittleEndian(v, n)[k] == v / Pow256(k) % 256
    decreases n
  {
    if k > 0 {
      DigitAt(v / 256, n - 1, k - 1);
      DivTwice(v, Pow256(k - 1));
    }
  }

  lemma DivTwice(v: nat, m: nat)
    requires m > 0
    ensures v / 256 / m == v / (256 * m)
  {
    var q, r := v / 256 / m, v / 256 % m;
    assert v / 256 == m * q + r;
    assert v == 256 * (m * q + r) + v % 256;
    var low := 256 * r + v % 256;
    assert low < 256 * m;
    assert v == (256 * m) * q + low by {
      assert 256 * (m * q + r) == (256 * m) * q + 256 * r;
    }
    QuotientIs(v, 256 * m, q, low);
  }

  lemma QuotientIs(v: nat, d: nat, q: nat, r: nat)
    requires d > 0 && v == d * q + r && r < d
    ensures v / d == q
  {
    var x := v / d;
    assert v == d * x + v % d;
    if x < q {
      Less(d, x, q);
    } else if q < x {
      Less(d, q, x);
    }
  }

  lemma Less(d: nat, a: nat, b: nat)
    requires a < b
    ensures d * a + d <= d * b
  {
    assert d * b == d * a + d * (b - a);
    assert d * (b - a) == d + d * (b - a - 1);
  }

  /** Bytes `off` to `off + n` of `b` are `v`, least significant first. */
  ghost predicate Spells(b: seq<byte>, off: nat, n: nat, v: nat) {
    off + n <= |b| && forall k: nat {:trigger b[off + k]} :: k < n ==> b[off + k] == v / Pow256(k) % 256
  }

  lemma SpellsAt(b: seq<byte>, off: nat, n: nat, v: nat)
    requires off + n <= |b| && b[off..off + n] == LittleEndian(v, n)
    ensures Spells(b, off, n, v)
  {
    forall k: nat | k < n
      ensures b[off + k] == v / Pow256(k) % 256
    {
      assert b[off + k] == b[off..off + n][k];
      DigitAt(v, n, k);
    }
  }

  /** A key as the program stores it: a negative one has 2^64 added. */
  function Unsigned(k: Key): (v: nat) {
    if k < 0 then k + 18446744073709551616 else k
  }

  lemma KeySpells(k: Key, b: seq<byte>, off: nat)
    requires off + 8 <= |b| && b[off..off + 8] == KeyBytes(k)
    ensures Spells(b, off, 8, Unsigned(k))
  {
    SpellsAt(b, off, 8, Unsigned(k));
  }

  /** The header of a leaf page: type 1, entry count, largest count 511, next page; bytes 1 to 3 are left alone. */
  lemma LeafHeaderBytes(next: PageId, es: seq<LeafKv>, p: Page)
    requires |es| <= 511
    ensures var r := LeafPage(next, es, p);
            && r[0] == 1 && r[1] == p[1] && r[2] == p[2] && r[3] == p[3]
            && r[4] == |es| % 256 && r[5] == |es| / 256 && r[6] == 0 && r[7] == 0
            && r[8] == 255 && r[9] == 1 && r[10] == 0 && r[11] == 0
            && Spells(r, 12, 4, next)
  {
    var r := LeafPage(next, es, p);
    CountBytes(r, 4, |es|);
    CountBytes(r, 8, 511);
    assert r[12..16] == U32Bytes(next);
    SpellsAt(r, 12, 4, next);
  }

  lemma CountBytes(r: seq<byte>, off: nat, n: u32)
    requires off + 4 <= |r| && r[off..off + 4] == U32Bytes(n) && n < 65536
    ensures r[off] == n % 256 && r[off + 1] == n / 256 && r[off + 2] == 0 && r[off + 3] == 0
  {
    SpellsAt(r, off, 4, n);
    assert Pow256(0) == 1 && Pow256(1) == 256 && Pow256(2) == 65536 && Pow256(3) == 16777216;
    assert r[off + 0] == n / 1 % 256 && r[off + 1] == n / 256 % 256;
    assert r[off + 2] == n / 65536 % 256 && r[off + 3] == n / 16777216 % 256;
  }

  /** Entry `i` of a leaf page: key, page and slot, in 16 bytes from 16 + 16 i. */
  lemma LeafEntryBytes(next: PageId, es: seq<LeafKv>, p: Page, i: nat)
    requires i < |es| <= 511
    ensures var r := LeafPage(next, es, p);
            && Spells(r, 16 + 16 * i, 8, Unsigned(es[i].key))
            && Spells(r, 24 + 16 * i, 4, es[i].rid.pageId) && Spells(r, 28 + 16 * i, 4, es[i].rid.slotNum)
  {
    var r, off := LeafPage(next, es, p), 16 + 16 * i;
    LeafEntriesSlice(es, i);
    assert r[16..16 + 16 * |es|] == LeafEntriesBytes(es);
    assert r[off..off + 16] == LeafEntriesBytes(es)[16 * i..16 * i + 16];
    LeafKvSpells(es[i], r, off);
  }

  lemma LeafKvSpells(kv: LeafKv, r: seq<byte>, off: nat)
    requires off + 16 <= |r| && r[off..off + 16] == LeafKvBytes(kv)
    ensures Spells(r, off, 8, Unsigned(kv.key)) && Spells(r, off + 8, 4, kv.rid.pageId) && Spells(r, off + 12, 4, kv.rid.slotNum)
  {
    var s, k, p, t := r[off..off + 16], KeyBytes(kv.key), U32Bytes(kv.rid.pageId), U32Bytes(kv.rid.slotNum);
    assert s == k + p + t;
    assert s[..8] == k && s[8..12] == p && s[12..] == t;
    SliceOfSlice(r, off, 16, 0, 8);
    SliceOfSlice(r, off, 16, 8, 12);
    SliceOfSlice(r, off, 16, 12, 16);
    KeySpells(kv.key, r, off);
    SpellsAt(r, off + 8, 4, kv.rid.pageId);
    SpellsAt(r, off + 12, 4, kv.rid.slotNum);
  }

  /** Past the last entry a leaf page keeps what was there. */
  lemma LeafRest(next: PageId, es: seq<LeafKv>, p: Page, k: nat)
    requires |es| <= 511 && 16 + 16 * |es| <= k < 8192
    ensures LeafPage(next, es, p)[k] == p[k]
  {
    SuffixAt(LeafHeader(next, |es|, p) + LeafEntriesBytes(es), p, k);
  }

  lemma SuffixAt(head: seq<byte>, p: Page, k: nat)
    requires |head| <= k < |p|
    ensures (head + p[|head|..])[k] == p[k]
  {
  }

  /** The header of an internal page: type 0, entry count, largest count 681; bytes 1 to 3 and 12 to 15 are left alone. */
  lemma InternalHeaderBytes(es: seq<InternalKv>, p: Page)
    requires |es| <= 681
    ensures var r := InternalPage(es, p);
            && r[0] == 0 && r[1] == p[1] && r[2] == p[2] && r[3] == p[3]
            && r[4] == |es| % 256 && r[5] == |es| / 256 && r[6] == 0 && r[7] == 0
            && r[8] == 169 && r[9] == 2 && r[10] == 0 && r[11] == 0
            && r[12] == p[12] && r[13] == p[13] && r[14] == p[14] && r[15] == p[15]
  {
    var r, h := InternalPage(es, p), InternalHeader(|es|, p);
    InternalHeaderAlone(|es|, p);
    assert r[4..8] == h[4..8] && r[8..12] == h[8..12];
    CountBytes(r, 4, |es|);
    CountBytes(r, 8, 681);
    assert forall k :: 0 <= k < 16 ==> r[k] == h[k];
  }

  lemma InternalHeaderAlone(n: nat, p: Page)
    requires n <= 681
    ensures var h := InternalHeader(n, p);
            && |h| == 16 && h[0] == 0 && h[4..8] == U32Bytes(n) && h[8..12] == U32Bytes(681)
            && forall k :: 1 <= k < 4 || 12 <= k < 16 ==> h[k] == p[k]
  {
  }

  /** Entry `i` of an internal page: key and child, in 12 bytes from 16 + 12 i. */
  lemma InternalEntryBytes(es: seq<InternalKv>, p: Page, i: nat)
    requires i < |es| <= 681
    ensures var r := InternalPage(es, p);
            Spells(r, 16 + 12 * i, 8, Unsigned(es[i].key)) && Spells(r, 24 + 12 * i, 4, es[i].child)
  {
    var r, off := InternalPage(es, p), 16 + 12 * i;
    InternalEntriesSlice(es, i);
    assert r[16..16 + 12 * |es|] == InternalEntriesBytes(es);
    assert r[off..off + 12] == InternalEntriesBytes(es)[12 * i..12 * i + 12];
    InternalKvSpells(es[i], r, off);
  }

  lemma InternalKvSpells(kv: InternalKv, r: seq<byte>, off: nat)
    requires off + 12 <= |r| && r[off..off + 12] == InternalKvBytes(kv)
    ensures Spells(r, off, 8, Unsigned(kv.key)) && Spells(r, off + 8, 4, kv.child)
  {
    var s, k, c := r[off..off + 12], KeyBytes(kv.key), U32Bytes(kv.child);
    assert s == k + c;
    assert s[..8] == k && s[8..] == c;
    SliceOfSlice(r, off, 12, 0, 8);
    SliceOfSlice(r, off, 12, 8, 12);
    KeySpells(kv.key, r, off);
    SpellsAt(r, off + 8, 4, kv.child);
  }

  /** Past the last entry an internal page keeps what was there. */
  lemma InternalRest(es: seq<InternalKv>, p: Page, k: nat)
    requires |es| <= 681 && 16 + 12 * |es| <= k < 8192
    ensures InternalPage(es, p)[k] == p[k]
  {
    SuffixAt(InternalHeader(|es|, p) + InternalEntriesBytes(es), p, k);
  }
}
