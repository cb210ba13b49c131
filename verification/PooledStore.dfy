/** The page store the B+tree is proved over is what the buffer pool presents, by way of its guards. */
module PooledStore {
  import opened Common
  import opened Arc
  import opened Pool
  import opened PoolRuns
  import opened PoolRefinement
  import PageStore

  /** The pool shows the pages of the store, and will hand out the same id next. */
  ghost predicate Presents(s: Pool, store: PageStore.Snapshot) {
    View(s) == store.pages && s.next == store.next
  }

  /** What `new_page` does to a pool is what `NewPage` does to the store. */
  lemma NewPagePresents(s: Pool, store: PageStore.Snapshot, t: Pool)
    requires Agreed(s) && Presents(s, store) && Takes(s, Allocate, t)
    ensures store.next !in store.pages
    ensures Presents(t, store.(pages := store.pages[store.next := ZeroPage()], next := store.next + 1))
  {
    NewPageSound(s);
  }

  /** A guard taken on a page shows the page of the store, whatever is evicted for it. */
  lemma AcquirePresents(s: Pool, store: PageStore.Snapshot, p: PageId, t: Pool)
    requires Agreed(s) && Presents(s, store) && Takes(s, Acquire(p), t)
    ensures Presents(t, store) && p in t.table && Entry(t.table[p], p) in t.guards
    ensures p in store.pages && t.table[p] < |t.frames| && t.frames[t.table[p]].data == store.pages[p]
  {
    FetchView(s, p);
    FetchFrees(s, p);
  }

  lemma TakesAgrees(s: Pool, x: Step, t: Pool)
    requires Agreed(s) && Takes(s, x, t)
    ensures Agreed(t)
  {
    ApplyAgrees(s, x);
  }

  lemma StoreThrough(t: Pool, store: PageStore.Snapshot, e: Entry, data: Page, u: Pool)
    requires Agreed(t) && Presents(t, store) && Holds(t.table, e.page, e.frame) && Takes(t, Write(e, data), u)
    ensures Presents(u, store.(pages := store.pages[e.page := data]))
  {
    ApplyRefines(t, Write(e, data));
  }

  lemma ReleasePresents(u: Pool, store: PageStore.Snapshot, e: Entry, v: Pool)
    requires Presents(u, store) && Takes(u, Release(e), v)
    ensures Presents(v, store)
  {
    SameData(u, v);
  }

  /** Taking a guard on a page, writing through it and dropping it is one write to the store; any number of
      other guards may be alive meanwhile. */
  lemma WritePresents(s: Pool, store: PageStore.Snapshot, p: PageId, data: Page, t: Pool, u: Pool, v: Pool)
    requires Agreed(s) && Presents(s, store) && Takes(s, Acquire(p), t)
    requires p in t.table && Takes(t, Write(Entry(t.table[p], p), data), u) && Takes(u, Release(Entry(t.table[p], p)), v)
    ensures Agreed(v) && Presents(v, store.(pages := store.pages[p := data]))
  {
    var e := Entry(t.table[p], p);
    AcquirePresents(s, store, p, t);
    TakesAgrees(s, Acquire(p), t);
    StoreThrough(t, store, e, data, u);
    TakesAgrees(t, Write(e, data), u);
    ReleasePresents(u, store.(pages := store.pages[p := data]), e, v);
    TakesAgrees(u, Release(e), v);
  }

  /** After flushing everything, in whatever order, the disk holds the pages of the store, and the pool still
      shows them. */
  lemma FlushPresents(s: Pool, store: PageStore.Snapshot, order: seq<PageId>, t: Pool)
    requires Agreed(s) && CleanPool(s) && Presents(s, store) && Takes(s, FlushEvery(order), t)
    ensures Presents(t, store) && t.disk == store.pages
  {
    FlushedAll(s, order);
  }
}
