/** The pages a B+tree works on, as the buffer pool presents them: a map from page id to page
    image, where `NewPage` hands out ids that were never used. */
module PageStore {
  import opened Common
  import opened Codec

  /** A store at one moment: its page images, what they say as tree nodes, and the next free id. */
  datatype Snapshot = Snapshot(pages: map<PageId, Page>, nodes: map<PageId, Node>, next: nat)

  /** From `s` to `s'`, pages change only in `changed`, and no page goes away. */
  ghost predicate Kept(s: Snapshot, s': Snapshot, changed: set<PageId>) {
    forall x :: x in s.pages && x !in changed ==>
                  && x in s'.pages && s'.pages[x] == s.pages[x]
                  && x in s.nodes && x in s'.nodes && s'.nodes[x] == s.nodes[x]
  }

  /** No page but `id` differs, and no page came or went. */
  ghost predicate OthersUnchanged(pages: map<PageId, Page>, pages': map<PageId, Page>, id: PageId)
    ensures OthersUnchanged(pages, pages', id) ==> pages'.Keys == pages.Keys
  {
    pages'.Keys == pages.Keys && forall x :: x in pages && x != id ==> pages'[x] == pages[x]
  }

  class PageStore {
    var pages: map<PageId, Page>
    var nextPageId: nat
    /** The pages as the tree reads them. */
    ghost var nodes: map<PageId, Node>

    ghost predicate Valid()
      reads this
    {
      && nextPageId <= INVALID_PAGE_ID && (forall id: PageId :: id in pages <==> id < nextPageId)
      && nodes.Keys == pages.Keys
      && forall id {:trigger NodeOf(pages[id])} :: id in pages ==> nodes[id] == NodeOf(pages[id])
    }

    ghost function Snap(): (s: Snapshot)
      reads this
    {
      Snapshot(pages, nodes, nextPageId)
    }

    constructor ()
      ensures Valid() && pages == map[] && nextPageId == 0
    {
      pages, nextPageId, nodes := map[], 0, map[];
    }

    method NewPage() returns (id: PageId)
      requires Valid() && nextPageId < INVALID_PAGE_ID
      modifies this
      ensures Valid() && id == old(nextPageId) && nextPageId == id + 1
      ensures id !in old(pages) && pages.Keys == old(pages.Keys) + {id} && pages[id] == ZeroPage()
      ensures forall x :: x in old(pages) ==> pages[x] == old(pages)[x]
      ensures id in nodes && nodes == old(nodes)[id := nodes[id]]
    {
      id := nextPageId;
      pages := pages[id := ZeroPage()];
      nextPageId := nextPageId + 1;
      nodes := nodes[id := NodeOf(ZeroPage())];
    }

    /** A fresh buffer holding page `id`, as a write guard lends it out. */
    method Buffer(id: PageId) returns (buf: array<byte>)
      requires Valid() && id in pages
      ensures fresh(buf) && buf.Length == PAGE_SIZE && buf[..] == pages[id]
    {
      var p := pages[id];
      buf := new byte[8192](i requires 0 <= i < 8192 => p[i]);
      assert buf[..] == p;
    }

    method WriteLeaf(id: PageId, next: PageId, entries: seq<LeafKv>)
      requires Valid() && id in pages && |entries| <= LEAF_PAGE_MAX
      modifies this
      ensures Valid() && nextPageId == old(nextPageId)
      ensures OthersUnchanged(old(pages), pages, id)
      ensures nodes == old(nodes)[id := Leaf(next, entries)]
    {
      var buf := Buffer(id);
      EncodeLeaf(next, entries, buf);
      LeafRoundTrip(next, entries, pages[id]);
      nodes := nodes[id := Leaf(next, entries)];
      pages := pages[id := buf[..]];
    }

    method WriteInternal(id: PageId, kids: seq<InternalKv>)
      requires Valid() && id in pages && |kids| <= INTERNAL_PAGE_MAX
      modifies this
      ensures Valid() && nextPageId == old(nextPageId)
      ensures OthersUnchanged(old(pages), pages, id)
      ensures nodes == old(nodes)[id := Internal(kids)]
    {
      var buf := Buffer(id);
      EncodeInternal(kids, buf);
      InternalRoundTrip(kids, pages[id]);
      nodes := nodes[id := Internal(kids)];
      pages := pages[id := buf[..]];
    }

    /** Bytes 0..4 of the header page hold the root page id; the rest is left alone. */
    method WriteRootPageId(header: PageId, root: PageId)
      requires Valid() && header in pages
      modifies this
      ensures Valid() && nextPageId == old(nextPageId)
      ensures OthersUnchanged(old(pages), pages, header) && U32At(pages[header], 0) == root
      ensures header in nodes && nodes == old(nodes)[header := nodes[header]]
    {
      var buf := Buffer(header);
      CopyFromSlice(buf, 0, U32Bytes(root));
      var p: Page := buf[..];
      assert p[0..4] == U32Bytes(root);
      U32RoundTrip(root, p, 0);
      pages := pages[header := p];
      nodes := nodes[header := NodeOf(p)];
    }

    /** Reads a page as a tree node: its type byte first, then the matching decoder. */
    method ReadNode(id: PageId) returns (n: Node)
      requires Valid() && id in pages
      ensures n == nodes[id]
    {
      var p := pages[id];
      assert nodes[id] == NodeOf(pages[id]);
      if p[0] == LEAF_NODE {
        var r := DecodeLeaf(p);
        match r {
          case Done(v) => return Leaf(v.0, v.1);
          case Panic => return Corrupt;
        }
      } else if p[0] == INTERNAL_NODE {
        var r := DecodeInternal(p);
        match r {
          case Done(v) => return Internal(v);
          case Panic => return Corrupt;
        }
      } else {
        return Corrupt;
      }
    }
  }
}
