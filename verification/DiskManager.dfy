/** `DiskManager`: pages in one file, as the program keeps them; each operation is proved to be the one in `Disk`. */
module DiskManager {
  import opened Common
  import opened Disk

  class DiskManager {
    var dbFile: seq<byte>
    var pageCapacity: nat
    var pages: map<PageId, nat>
    var freeSlots: seq<nat>

    ghost function Model(): (d: Disk)
      reads this
    {
      Disk(dbFile, pages, freeSlots, pageCapacity)
    }

    /** `existing` is what the file held before; none of it counts as a page. */
    constructor (existing: seq<byte>)
      ensures Model() == NewDisk(existing)
      ensures DiskOk(Model()) && Contents(Model()) == map[]
    {
      dbFile := SetLen(existing, (DB_IO_SIZE + 1) * PAGE_SIZE);
      pages := map[];
      pageCapacity := DB_IO_SIZE;
      freeSlots := [];
      new;
      NewDiskOk(existing);
    }

    /** The offset to use for a page, taking a free slot or growing the file if it has none. */
    method OffsetOf(pageId: PageId) returns (offset: nat)
      modifies this
      ensures (offset, Model()) == PickSlot(old(Model()), pageId)
    {
      if pageId in pages {
        offset := pages[pageId];
      } else if freeSlots != [] {
        offset := freeSlots[|freeSlots| - 1];
        freeSlots := freeSlots[..|freeSlots| - 1];
      } else {
        if |pages| + 1 >= pageCapacity {
          pageCapacity := pageCapacity * 2;
          dbFile := SetLen(dbFile, (pageCapacity + 1) * PAGE_SIZE);
        }
        offset := |pages| * PAGE_SIZE;
      }
    }

    /** `ok` is false where the program panics: fewer than `PAGE_SIZE` bytes to write. */
    method WritePage(pageId: PageId, pageData: array<byte>) returns (ok: bool)
      modifies this
      ensures ok <==> Write(old(Model()), pageId, pageData[..]).Done?
      ensures ok ==> Model() == Write(old(Model()), pageId, pageData[..]).value
      ensures ok && old(DiskOk(Model())) ==>
                DiskOk(Model()) && Contents(Model()) == old(Contents(Model()))[pageId := pageData[..PAGE_SIZE]]
    {
      ghost var d := Model();
      var offset := OffsetOf(pageId);
      if pageData.Length < PAGE_SIZE {
        return false;
      }
      dbFile := Overwrite(dbFile, offset, pageData[..PAGE_SIZE]);
      pages := pages[pageId := offset];
      assert pageData[..][..PAGE_SIZE] == pageData[..PAGE_SIZE];
      if DiskOk(d) {
        WriteStores(d, pageId, pageData[..]);
      }
      return true;
    }

    /** `ok` is false where the program panics: the slot starts past the end of the file, or the buffer
        is shorter than a page. */
    method ReadPage(pageId: PageId, pageData: array<byte>) returns (ok: bool)
      modifies this, pageData
      ensures ok <==> Read(old(Model()), pageId, old(pageData[..])).Done?
      ensures ok ==> (Model(), pageData[..]) == Read(old(Model()), pageId, old(pageData[..])).value
      ensures old(DiskOk(Model()) && pageId in pages) && pageData.Length >= PAGE_SIZE ==>
                ok && Model() == old(Model()) && pageData[..PAGE_SIZE] == Contents(Model())[pageId]
    {
      ghost var d, was := Model(), pageData[..];
      var offset := OffsetOf(pageId);
      if DiskOk(d) && pageId in pages && pageData.Length >= PAGE_SIZE {
        ReadReturns(d, pageId, pageData[..]);
      }
      if offset > |dbFile| || pageData.Length < PAGE_SIZE {
        return false;
      }
      var n := if offset + PAGE_SIZE <= |dbFile| then PAGE_SIZE else |dbFile| - offset;
      forall i | 0 <= i < n {
        pageData[i] := dbFile[offset + i];
      }
      assert pageData[..] == ReadInto(dbFile, offset, was);
      return true;
    }

    method DeletePage(pageId: PageId)
      modifies this
      ensures Model() == Delete(old(Model()), pageId)
      ensures old(DiskOk(Model())) ==> DiskOk(Model()) && Contents(Model()) == old(Contents(Model())) - {pageId}
    {
      ghost var d := Model();
      if pageId in pages {
        freeSlots := freeSlots + [pages[pageId]];
        pages := pages - {pageId};
      }
      if DiskOk(d) {
        DeleteRemoves(d, pageId);
      }
    }
  }
}
