/** The database file as a value: which slot each page occupies, and what reading, writing and deleting do. */
module Disk {
  import opened Common

  /** `freeSlots` is a stack of offsets, its top at the end. */
  datatype Disk = Disk(file: seq<byte>, pages: map<PageId, nat>, freeSlots: seq<nat>, capacity: nat)

  /** `set_len`: cut off the end, or pad with zeros. */
  function SetLen(file: seq<byte>, n: nat): (r: seq<byte>)
    ensures |r| == n
    ensures forall i :: 0 <= i < n ==> r[i] == if i < |file| then file[i] else 0
  {
    if n <= |file| then file[..n] else file + seq(n - |file|, i => 0)
  }

  /** Bytes written at `offset`; the file grows if they end past it. */
  function Overwrite(file: seq<byte>, offset: nat, data: seq<byte>): (r: seq<byte>) {
    var f := if offset + |data| <= |file| then file else SetLen(file, offset + |data|);
    f[..offset] + data + f[offset + |data|..]
  }

  /** What `read_exact` leaves in a buffer of a page or more: the page, or as much of it as the file has. */
  function ReadInto(file: seq<byte>, offset: nat, buffer: seq<byte>): (r: seq<byte>)
    requires |buffer| >= PAGE_SIZE && offset <= |file|
    ensures |r| == |buffer|
  {
    var n := if offset + PAGE_SIZE <= |file| then PAGE_SIZE else |file| - offset;
    file[offset..offset + n] + buffer[n..]
  }

  function NewDisk(existing: seq<byte>): (d: Disk) {
    Disk(SetLen(existing, (DB_IO_SIZE + 1) * PAGE_SIZE), map[], [], DB_IO_SIZE)
  }

  function Grown(d: Disk): (r: Disk) {
    if |d.pages| + 1 >= d.capacity
    then d.(capacity := 2 * d.capacity, file := SetLen(d.file, (2 * d.capacity + 1) * PAGE_SIZE))
    else d
  }

  /** The offset used for page `p`, and the disk once it is picked. A page without a slot gets the most
      recently freed one, else the one after the pages in use. Recording the choice is up to the caller. */
  function PickSlot(d: Disk, p: PageId): (r: (nat, Disk)) {
    if p in d.pages then (d.pages[p], d)
    else if d.freeSlots != [] then (d.freeSlots[|d.freeSlots| - 1], d.(freeSlots := d.freeSlots[..|d.freeSlots| - 1]))
    else (|d.pages| * PAGE_SIZE, Grown(d))
  }

  function Write(d: Disk, p: PageId, data: seq<byte>): (r: Outcome<Disk>) {
    if |data| < PAGE_SIZE then Panic
    else
      var (offset, e) := PickSlot(d, p);
      Done(e.(file := Overwrite(e.file, offset, data[..PAGE_SIZE]), pages := e.pages[p := offset]))
  }

  /** The disk and the buffer after a read; reading a page that was never written also picks a slot. */
  function Read(d: Disk, p: PageId, buffer: seq<byte>): (r: Outcome<(Disk, seq<byte>)>) {
    var (offset, e) := PickSlot(d, p);
    if offset > |e.file| || |buffer| < PAGE_SIZE then Panic
    else Done((e, ReadInto(e.file, offset, buffer)))
  }

  function Delete(d: Disk, p: PageId): (r: Disk) {
    if p in d.pages then d.(pages := d.pages - {p}, freeSlots := d.freeSlots + [d.pages[p]]) else d
  }

  // ------------------------------------------------------------------ the tiling invariant

  type Table = map<PageId, nat>

  /** `offset` is the start of one of the first `n` slots. */
  ghost predicate IsSlot(offset: nat, n: nat) {
    offset % 8192 == 0 && offset < n * 8192
  }

  ghost predicate InUse(pages: Table, free: seq<nat>, offset: nat) {
    offset in free || offset in pages.Values
  }

  /** No slot belongs to two pages, lies on the free stack twice, or is both free and a page's. */
  ghost predicate Separate(pages: Table, free: seq<nat>) {
    && (forall p, q :: p in pages && q in pages && p != q ==> pages[p] != pages[q])
    && NoDuplicates(free)
    && forall p :: p in pages ==> pages[p] !in free
  }

  /** The offsets handed out are exactly the first slots, without a gap, each handed out once. */
  ghost predicate Tiles(pages: Table, free: seq<nat>) {
    Separate(pages, free) && Fills(pages, free, |pages| + |free|)
  }

  ghost predicate Fills(pages: Table, free: seq<nat>, n: nat) {
    forall o: nat :: InUse(pages, free, o) <==> IsSlot(o, n)
  }

  /** There is always room for one slot more, inside a file of `capacity + 1` slots. */
  ghost predicate Roomy(d: Disk) {
    |d.pages| + |d.freeSlots| < d.capacity && |d.file| == (d.capacity + 1) * 8192
  }

  ghost predicate DiskOk(d: Disk) {
    Tiles(d.pages, d.freeSlots) && Roomy(d)
  }

  ghost function SlotBytes(file: seq<byte>, offset: nat): (s: Page) {
    if offset + PAGE_SIZE <= |file| then file[offset..offset + PAGE_SIZE] else ZeroPage()
  }

  /** What the disk stands for: the bytes of the slot of each page it holds. */
  ghost function Contents(d: Disk): (m: map<PageId, Page>) {
    map p | p in d.pages :: SlotBytes(d.file, d.pages[p])
  }

  /** Every page lies wholly inside the file. */
  lemma PageInFile(d: Disk, p: PageId)
    requires DiskOk(d) && p in d.pages
    ensures IsSlot(d.pages[p], |d.pages| + |d.freeSlots|) && d.pages[p] + PAGE_SIZE <= |d.file|
  {
  }

  lemma NewDiskOk(existing: seq<byte>)
    ensures DiskOk(NewDisk(existing)) && Contents(NewDisk(existing)) == map[]
    ensures NewDisk(existing).capacity == 16 && |NewDisk(existing).file| == 139264
  {
  }

  // ------------------------------------------------------------------ picking a slot

  /** Growth moves nothing: the file keeps its bytes and gains zeros. */
  lemma GrownKeeps(d: Disk)
    requires Roomy(d)
    ensures Roomy(Grown(d)) && |d.pages| + 1 < Grown(d).capacity
    ensures |d.file| <= |Grown(d).file| && d.file == Grown(d).file[..|d.file|]
  {
  }

  /** The slot after all those in use. */
  lemma AppendSlot(pages: Table, p: PageId)
    requires Tiles(pages, []) && p !in pages
    ensures Tiles(pages[p := |pages| * 8192], [])
  {
    var n := |pages|;
    ValuesGrow(pages, p, n * 8192);
    FillsOneMore(pages, pages[p := n * 8192], n);
    forall q | q in pages
      ensures pages[q] != n * 8192
    {
      assert InUse(pages, [], pages[q]);
    }
  }

  lemma ValuesGrow(pages: Table, p: PageId, o: nat)
    requires p !in pages
    ensures pages[p := o].Values == pages.Values + {o} && |pages[p := o]| == |pages| + 1
  {
    var r := pages[p := o];
    assert r[p] == o;
    assert forall q :: q in pages ==> r[q] == pages[q];
    assert r.Keys == pages.Keys + {p};
  }

  lemma FillsOneMore(pages: Table, r: Table, n: nat)
    requires Fills(pages, [], n) && r.Values == pages.Values + {n * 8192}
    ensures Fills(r, [], n + 1)
  {
    forall o: nat
      ensures InUse(r, [], o) <==> IsSlot(o, n + 1)
    {
      assert InUse(r, [], o) <==> InUse(pages, [], o) || o == n * 8192;
    }
  }

  /** The slot on top of the free stack changes hands. */
  lemma ReuseSlot(pages: Table, free: seq<nat>, p: PageId, o: nat)
    requires p !in pages
    ensures Tiles(pages, free + [o]) <==> Tiles(pages[p := o], free)
  {
    var n := |pages| + |free| + 1;
    ValuesGrow(pages, p, o);
    SameOffsets(pages, free + [o], pages[p := o], free, n);
    SeparateMoves(pages, free, p, o);
  }

  lemma SameOffsets(pages: Table, free: seq<nat>, r: Table, rest: seq<nat>, n: nat)
    requires forall x: nat :: InUse(pages, free, x) <==> InUse(r, rest, x)
    ensures Fills(pages, free, n) <==> Fills(r, rest, n)
  {
  }

  lemma SeparateMoves(pages: Table, free: seq<nat>, p: PageId, o: nat)
    requires p !in pages
    ensures Separate(pages, free + [o]) <==> Separate(pages[p := o], free)
  {
    var r := pages[p := o];
    if Separate(pages, free + [o]) {
      assert (free + [o])[|free|] == o;
      assert forall i :: 0 <= i < |free| ==> free[i] == (free + [o])[i];
      assert forall x :: x in free ==> x in free + [o];
      assert o in free + [o];
    }
    if Separate(r, free) {
      assert r[p] == o;
      assert forall q :: q in pages ==> r[q] == pages[q];
    }
  }

  /** A page that just got a slot: the tiling and the room are back, the slot is nobody else's, and no
      other page's bytes changed. */
  lemma PickedSlot(d: Disk, p: PageId)
    requires DiskOk(d) && p !in d.pages
    ensures var (o, e) := PickSlot(d, p); DiskOk(e.(pages := e.pages[p := o])) && e.pages == d.pages
    ensures var (o, e) := PickSlot(d, p); |d.file| <= |e.file| && d.file == e.file[..|d.file|]
  {
    if d.freeSlots == [] {
      GrownKeeps(d);
      AppendSlot(d.pages, p);
    } else {
      var free, o := d.freeSlots[..|d.freeSlots| - 1], d.freeSlots[|d.freeSlots| - 1];
      assert d.freeSlots == free + [o];
      ReuseSlot(d.pages, free, p, o);
    }
  }

  // ------------------------------------------------------------------ reads and writes

  /** Writing one slot reaches no other slot. */
  lemma OverwriteFrame(file: seq<byte>, o: nat, data: Page, q: nat, n: nat)
    requires IsSlot(o, n) && IsSlot(q, n) && n * 8192 <= |file|
    ensures |Overwrite(file, o, data)| == |file|
    ensures SlotBytes(Overwrite(file, o, data), q) == if q == o then data else SlotBytes(file, q)
  {
    var w := Overwrite(file, o, data);
    if q < o {
      assert q + 8192 <= o;
      assert w[q..q + 8192] == file[q..q + 8192];
    } else if o < q {
      assert o + 8192 <= q;
      assert w[q..q + 8192] == file[q..q + 8192];
    }
  }

  lemma OverwriteRecorded(d: Disk, p: PageId, data: Page)
    requires DiskOk(d) && p in d.pages
    ensures var w := d.(file := Overwrite(d.file, d.pages[p], data)); DiskOk(w) && Contents(w) == Contents(d)[p := data]
  {
    var w := d.(file := Overwrite(d.file, d.pages[p], data));
    var n := |d.pages| + |d.freeSlots|;
    PageInFile(d, p);
    forall q | q in d.pages
      ensures SlotBytes(w.file, d.pages[q]) == (if q == p then data else SlotBytes(d.file, d.pages[q])) && |w.file| == |d.file|
    {
      PageInFile(d, q);
      OverwriteFrame(d.file, d.pages[p], data, d.pages[q], n);
    }
  }

  /** A write keeps the tiling and changes exactly one page of the contents. */
  lemma WriteStores(d: Disk, p: PageId, data: seq<byte>)
    requires DiskOk(d) && |data| >= PAGE_SIZE
    ensures Write(d, p, data).Done? && DiskOk(Write(d, p, data).value)
    ensures Contents(Write(d, p, data).value) == Contents(d)[p := data[..PAGE_SIZE]]
  {
    if p in d.pages {
      assert d.pages[p := d.pages[p]] == d.pages;
      OverwriteRecorded(d, p, data[..PAGE_SIZE]);
    } else {
      WriteFresh(d, p, data[..PAGE_SIZE]);
    }
  }

  lemma WriteFresh(d: Disk, p: PageId, data: Page)
    requires DiskOk(d) && p !in d.pages
    ensures var (o, e) := PickSlot(d, p);
            var w := e.(file := Overwrite(e.file, o, data), pages := e.pages[p := o]);
            DiskOk(w) && Contents(w) == Contents(d)[p := data]
  {
    var (o, e) := PickSlot(d, p);
    var r := e.(pages := e.pages[p := o]);
    PickedSlot(d, p);
    OverwriteRecorded(r, p, data);
    PickedContents(d, p, data);
  }

  lemma PickedContents(d: Disk, p: PageId, data: Page)
    requires DiskOk(d) && p !in d.pages
    ensures var (o, e) := PickSlot(d, p); Contents(e.(pages := e.pages[p := o]))[p := data] == Contents(d)[p := data]
  {
    var (o, e) := PickSlot(d, p);
    PickedSlot(d, p);
    forall q | q in d.pages
      ensures SlotBytes(e.file, d.pages[q]) == SlotBytes(d.file, d.pages[q])
    {
      PageInFile(d, q);
      SamePrefix(d.file, e.file, d.pages[q]);
    }
  }

  lemma SamePrefix(f: seq<byte>, g: seq<byte>, o: nat)
    requires |f| <= |g| && f == g[..|f|] && o + PAGE_SIZE <= |f|
    ensures SlotBytes(f, o) == SlotBytes(g, o)
  {
  }

  /** Reading a page that the disk holds returns its last write and changes nothing. */
  lemma ReadReturns(d: Disk, p: PageId, buffer: seq<byte>)
    requires DiskOk(d) && p in d.pages && |buffer| >= PAGE_SIZE
    ensures Read(d, p, buffer) == Done((d, Contents(d)[p] + buffer[PAGE_SIZE..]))
  {
    PageInFile(d, p);
  }

  /** Deleting removes exactly that page from the contents; its slot becomes free. */
  lemma DeleteRemoves(d: Disk, p: PageId)
    requires DiskOk(d)
    ensures DiskOk(Delete(d, p)) && Contents(Delete(d, p)) == Contents(d) - {p}
  {
    if p in d.pages {
      var rest := d.pages - {p};
      assert rest[p := d.pages[p]] == d.pages;
      ReuseSlot(rest, d.freeSlots, p, d.pages[p]);
      assert |d.pages| == |rest| + 1;
    }
  }

  /** What the program panics at: less than a page of bytes, and nothing else. */
  lemma ShortPanics(d: Disk, p: PageId, data: seq<byte>)
    requires DiskOk(d)
    ensures Write(d, p, data).Panic? <==> |data| < 8192
    ensures Read(d, p, data).Panic? <==> |data| < 8192
  {
    if |data| >= 8192 {
      WriteStores(d, p, data);
      if p in d.pages {
        ReadReturns(d, p, data);
      } else {
        StrayRead(d, p, data);
      }
    }
  }

  /** When the file grows: for a new page with no slot free, and only if that would leave no more than one slot of
      the capacity; then the capacity doubles. Nothing else changes it. */
  lemma WriteGrows(d: Disk, p: PageId, data: seq<byte>)
    requires DiskOk(d) && |data| >= PAGE_SIZE
    ensures Write(d, p, data).Done?
    ensures var w := Write(d, p, data).value;
            && w.capacity == (if p !in d.pages && d.freeSlots == [] && |d.pages| + 1 >= d.capacity then 2 * d.capacity else d.capacity)
            && |w.file| == (w.capacity + 1) * 8192
  {
    WriteStores(d, p, data);
  }

  /** How many slots have been handed out: a new page takes another one only if none is free. */
  lemma WriteSlots(d: Disk, p: PageId, data: seq<byte>)
    requires DiskOk(d) && |data| >= PAGE_SIZE
    ensures Write(d, p, data).Done?
    ensures var w := Write(d, p, data).value;
            |w.pages| + |w.freeSlots| == |d.pages| + |d.freeSlots| + if p !in d.pages && d.freeSlots == [] then 1 else 0
  {
    if p in d.pages {
      assert d.pages[p := d.pages[p]] == d.pages;
    } else {
      ValuesGrow(d.pages, p, PickSlot(d, p).0);
    }
  }

  /** A deleted page's slot goes to the next new page, and the file does not grow for it; the other free slots
      stay as they are, so the slot freed last is used first. */
  lemma DeletedSlotReused(d: Disk, p: PageId, q: PageId, data: seq<byte>)
    requires DiskOk(d) && p in d.pages && q !in d.pages && |data| >= PAGE_SIZE
    ensures var w := Write(Delete(d, p), q, data);
            && w.Done? && w.value.pages[q] == d.pages[p] && w.value.freeSlots == d.freeSlots
            && w.value.capacity == d.capacity && |w.value.file| == |d.file|
  {
    var e := Delete(d, p);
    assert e.freeSlots[|e.freeSlots| - 1] == d.pages[p];
    assert e.freeSlots[..|e.freeSlots| - 1] == d.freeSlots;
    DeleteRemoves(d, p);
    WriteStores(e, q, data);
  }

  // ------------------------------------------------------------------ reading a page never written

  /** Taking the top slot off the free stack keeps the tiling exactly if it is the last slot of all. */
  lemma LosingSlot(pages: Table, free: seq<nat>, o: nat)
    requires Tiles(pages, free + [o])
    ensures Tiles(pages, free) <==> o == (|pages| + |free|) * 8192
  {
    var n := |pages| + |free|;
    var all := free + [o];
    assert all[|free|] == o && forall i :: 0 <= i < |free| ==> all[i] == free[i];
    assert InUse(pages, all, o) && !InUse(pages, free, o);
    assert forall x: nat :: InUse(pages, free, x) <==> InUse(pages, all, x) && x != o;
    assert Separate(pages, free);
    if o != n * 8192 {
      assert IsSlot(o, n);
    }
  }

  /** There is a free slot on top of the stack, and it is not the last slot of all. */
  ghost predicate LosesSlot(d: Disk) {
    d.freeSlots != [] && d.freeSlots[|d.freeSlots| - 1] != (|d.pages| + |d.freeSlots| - 1) * PAGE_SIZE
  }

  /** Reading a page the disk does not hold never panics and records no page. But it may take a slot off
      the free stack and lose it: the tiling survives exactly if there was none to take, or the one taken
      was the last slot of all. */
  lemma StrayRead(d: Disk, p: PageId, buffer: seq<byte>)
    requires DiskOk(d) && p !in d.pages && |buffer| >= PAGE_SIZE
    ensures Read(d, p, buffer).Done? && Read(d, p, buffer).value.0.pages == d.pages
    ensures DiskOk(Read(d, p, buffer).value.0) <==> !LosesSlot(d)
  {
    if d.freeSlots == [] {
      GrownKeeps(d);
    } else {
      var free, o := d.freeSlots[..|d.freeSlots| - 1], d.freeSlots[|d.freeSlots| - 1];
      assert d.freeSlots == free + [o];
      LosingSlot(d.pages, free, o);
      assert InUse(d.pages, d.freeSlots, o);
    }
  }

  /** The buffer then holds what is in that slot: the last one freed, or else the one after the pages. */
  lemma StrayReadBytes(d: Disk, p: PageId, buffer: seq<byte>)
    requires DiskOk(d) && p !in d.pages && |buffer| >= PAGE_SIZE
    ensures Read(d, p, buffer).Done?
    ensures var x := Read(d, p, buffer).value;
            var o := if d.freeSlots == [] then |d.pages| * 8192 else d.freeSlots[|d.freeSlots| - 1];
            x.1 == SlotBytes(x.0.file, o) + buffer[8192..] && |d.file| <= |x.0.file| && x.0.file[..|d.file|] == d.file
  {
    PickedSlot(d, p);
    var (o, e) := PickSlot(d, p);
    var r := e.(pages := e.pages[p := o]);
    PageInFile(r, p);
  }

  /** The slot after as many as there are pages and free slots is in use: one of the first was lost. */
  ghost predicate Overfull(d: Disk) {
    InUse(d.pages, d.freeSlots, (|d.pages| + |d.freeSlots|) * 8192)
  }

  lemma StrayReadOverfills(d: Disk, p: PageId, buffer: seq<byte>)
    requires DiskOk(d) && p !in d.pages && |buffer| >= PAGE_SIZE && LosesSlot(d)
    ensures Read(d, p, buffer).Done?
    ensures var r := Read(d, p, buffer).value.0; Overfull(r) && r.pages == d.pages && |r.freeSlots| + 1 == |d.freeSlots|
  {
    StrayRead(d, p, buffer);
    var free, o := d.freeSlots[..|d.freeSlots| - 1], d.freeSlots[|d.freeSlots| - 1];
    assert d.freeSlots == free + [o];
    assert IsSlot((|d.pages| + |free|) * 8192, |d.pages| + |d.freeSlots|);
    assert InUse(d.pages, d.freeSlots, (|d.pages| + |free|) * 8192);
  }

  lemma InUseMoves(pages: Table, free: seq<nat>, c: PageId, o: nat, x: nat)
    requires c !in pages
    ensures InUse(pages, free + [o], x) <==> InUse(pages[c := o], free, x)
    ensures |pages[c := o]| == |pages| + 1
  {
    ValuesGrow(pages, c, o);
  }

  lemma OverfullStep(d: Disk, c: PageId, x: Page)
    requires Overfull(d) && c !in d.pages && d.freeSlots != []
    ensures var w := Write(d, c, x);
            w.Done? && Overfull(w.value) && w.value.pages.Keys == d.pages.Keys + {c} && |w.value.freeSlots| + 1 == |d.freeSlots|
  {
    var free, o := d.freeSlots[..|d.freeSlots| - 1], d.freeSlots[|d.freeSlots| - 1];
    assert d.freeSlots == free + [o];
    InUseMoves(d.pages, free, c, o, (|d.pages| + |d.freeSlots|) * 8192);
  }

  lemma OverwriteRead(file: seq<byte>, o: nat, data: Page)
    ensures SlotBytes(Overwrite(file, o, data), o) == data
  {
  }

  /** With no free slot left, the next new page is given a slot that is another page's. */
  lemma OverfullEnd(d: Disk, c: PageId, x: Page) returns (b: PageId)
    requires Overfull(d) && c !in d.pages && d.freeSlots == []
    ensures var w := Write(d, c, x);
            w.Done? && b in d.pages && w.value.pages == d.pages[c := d.pages[b]] && Contents(w.value)[b] == x
  {
    b :| b in d.pages && d.pages[b] == |d.pages| * 8192;
    OverwriteRead(Grown(d).file, |d.pages| * 8192, x);
    assert x[..PAGE_SIZE] == x;
  }

  /** New pages written one after the other. */
  function WriteAll(d: Disk, ws: seq<(PageId, Page)>): (r: Outcome<Disk>)
    decreases ws
  {
    if ws == [] then Done(d)
    else
      match Write(d, ws[0].0, ws[0].1)
      case Panic => Panic
      case Done(e) => WriteAll(e, ws[1..])
  }

  ghost predicate NewPages(pages: Table, ws: seq<(PageId, Page)>) {
    && (forall i :: 0 <= i < |ws| ==> ws[i].0 !in pages)
    && forall i, j :: 0 <= i < j < |ws| ==> ws[i].0 != ws[j].0
  }

  /** The last page written has its slot together with another page `b`, whose bytes are gone. */
  ghost predicate Destroyed(w: Disk, b: PageId, last: (PageId, Page)) {
    && b in w.pages && last.0 in w.pages && b != last.0
    && w.pages[b] == w.pages[last.0] && Contents(w)[b] == last.1
  }

  lemma {:induction false} OverfullCorrupts(d: Disk, ws: seq<(PageId, Page)>) returns (w: Disk, b: PageId)
    requires Overfull(d) && NewPages(d.pages, ws) && |ws| == |d.freeSlots| + 1
    ensures WriteAll(d, ws) == Done(w) && Destroyed(w, b, ws[|ws| - 1])
    decreases |ws|
  {
    var c, x := ws[0].0, ws[0].1;
    if d.freeSlots == [] {
      b := OverfullEnd(d, c, x);
      w := Write(d, c, x).value;
      assert ws[1..] == [];
      assert w.pages[c] == d.pages[b] && w.pages[b] == d.pages[b];
    } else {
      OverfullStep(d, c, x);
      var e := Write(d, c, x).value;
      assert forall i :: 0 <= i < |ws[1..]| ==> ws[1..][i] == ws[i + 1];
      w, b := OverfullCorrupts(e, ws[1..]);
    }
  }

  /** What a lost slot leads to, whatever the disk: after a stray read that breaks the tiling, when as many new
      pages have been written as there were free slots before it, the last of them shares its slot with another
      page and has destroyed it. */
  lemma StrayReadCorrupts(d: Disk, p: PageId, buffer: seq<byte>, ws: seq<(PageId, Page)>) returns (w: Disk, b: PageId)
    requires DiskOk(d) && p !in d.pages && |buffer| >= PAGE_SIZE && LosesSlot(d)
    requires NewPages(d.pages, ws) && |ws| == |d.freeSlots|
    ensures Read(d, p, buffer).Done? && WriteAll(Read(d, p, buffer).value.0, ws) == Done(w) && Destroyed(w, b, ws[|ws| - 1])
  {
    StrayReadOverfills(d, p, buffer);
    w, b := OverfullCorrupts(Read(d, p, buffer).value.0, ws);
  }

  lemma TwoWritten(existing: seq<byte>, a: PageId, b: PageId, x: Page, y: Page) returns (d: Disk)
    requires a != b
    ensures Write(NewDisk(existing), a, x).Done? && Write(Write(NewDisk(existing), a, x).value, b, y) == Done(d)
    ensures DiskOk(d) && d.pages == map[a := 0, b := 8192] && d.freeSlots == [] && Contents(d) == map[a := x, b := y]
  {
    NewDiskOk(existing);
    FreshSlot(NewDisk(existing), a, x);
    var d1 := Write(NewDisk(existing), a, x).value;
    assert d1.pages == map[a := 0] && |map[a := 0]| == 1;
    assert Contents(d1) == map[a := x];
    FreshSlot(d1, b, y);
    d := Write(d1, b, y).value;
  }

  lemma FirstDeleted(d: Disk, a: PageId, b: PageId, x: Page, y: Page)
    requires a != b && DiskOk(d)
    requires d.pages == map[a := 0, b := 8192] && d.freeSlots == [] && Contents(d) == map[a := x, b := y]
    ensures var e := Delete(d, a);
            DiskOk(e) && e.pages == map[b := 8192] && e.freeSlots == [0] && Contents(e) == map[b := y] && LosesSlot(e)
  {
    DeleteRemoves(d, a);
    assert d.pages - {a} == map[b := 8192] && |map[b := 8192]| == 1;
    assert Contents(d) - {a} == map[b := y];
  }

  /** Such a disk is reached from an empty one: two pages are written and the first is deleted. Reading it again
      breaks the tiling. */
  lemma StrayReadReachable(existing: seq<byte>, a: PageId, b: PageId, x: Page, y: Page, buffer: Page)
    requires a != b
    ensures var d := Delete(Write(Write(NewDisk(existing), a, x).value, b, y).value, a);
            && DiskOk(d) && d.pages == map[b := 8192] && d.freeSlots == [0] && Contents(d) == map[b := y]
            && LosesSlot(d) && Read(d, a, buffer).Done? && !DiskOk(Read(d, a, buffer).value.0)
  {
    var d := TwoWritten(existing, a, b, x, y);
    FirstDeleted(d, a, b, x, y);
    StrayRead(Delete(d, a), a, buffer);
  }

  lemma FreshSlot(d: Disk, p: PageId, x: Page)
    requires DiskOk(d) && p !in d.pages && d.freeSlots == []
    ensures var w := Write(d, p, x);
            && w.Done? && DiskOk(w.value) && w.value.freeSlots == []
            && w.value.pages == d.pages[p := |d.pages| * 8192] && Contents(w.value) == Contents(d)[p := x]
  {
    WriteStores(d, p, x);
    assert x[..PAGE_SIZE] == x;
  }
}
