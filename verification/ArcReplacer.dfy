/** `ArcReplacer`: the replacer as the program has it, each operation proved to be the one in `Arc`. */
module ArcReplacer {
  import opened Common
  import opened Arc

  class ArcReplacer {
    var mru: seq<Entry>
    var mfu: seq<Entry>
    var timestampAccess: map<Entry, nat>
    var clock: nat
    var mruGhost: seq<PageId>
    var mfuGhost: seq<PageId>
    var mruTargetSize: nat
    const replacerSize: nat
    var currSize: nat
    var evictablePages: set<FrameId>

    ghost function Model(): (a: Arc)
      reads this
    {
      Arc(mru, mfu, mruGhost, mfuGhost, timestampAccess, clock, mruTargetSize, replacerSize, currSize, evictablePages)
    }

    constructor (replacerSize: nat)
      ensures Model() == NewArc(replacerSize)
    {
      this.replacerSize := replacerSize;
      mru, mfu, mruGhost, mfuGhost := [], [], [], [];
      timestampAccess, clock, mruTargetSize, currSize, evictablePages := map[], 0, 0, 0, {};
    }

    /** How many evictions in a row would succeed. */
    method Size() returns (n: nat)
      ensures n == |Model().evictable|
      ensures ArcOk(Model()) ==> n == Evictions(Model()) <= |Residents(Model())|
    {
      n := |evictablePages|;
      if ArcOk(Model()) {
        MarksAreEvictions(Model());
      }
    }

    /** A frame of a resident is marked: one more eviction in a row will succeed, unless it was marked already. */
    method SetEvictable(frameId: FrameId)
      modifies this
      ensures Model() == Mark(old(Model()), frameId)
      ensures ArcOk(old(Model())) && ResidentFrame(old(Model()), frameId) ==>
                ArcOk(Model()) && Evictions(Model()) == Evictions(old(Model())) + if frameId in old(evictablePages) then 0 else 1
    {
      ghost var a := Model();
      if ArcOk(a) && ResidentFrame(a, frameId) {
        MarkAddsEviction(a, frameId);
      }
      evictablePages := evictablePages + {frameId};
      currSize := currSize + 1;
    }

    /** `ok` is false where the program panics. */
    method RaiseTarget() returns (ok: bool)
      requires mruGhost != []
      modifies this`mruTargetSize
      ensures ok <==> !RaiseFails(old(mruTargetSize), |mruGhost|, |mfuGhost|, replacerSize)
      ensures ok ==> mruTargetSize == RaisedTarget(old(mruTargetSize), |mruGhost|, |mfuGhost|, replacerSize)
    {
      if |mruGhost| >= |mfuGhost| {
        if mruTargetSize + 1 >= U32_LIMIT || replacerSize >= U32_LIMIT {
          return false;
        }
        if mruTargetSize + 1 < replacerSize {
          mruTargetSize := mruTargetSize + 1;
          return true;
        }
      }
      var increase := |mfuGhost| / |mruGhost| % U32_LIMIT;
      if mruTargetSize + increase >= U32_LIMIT || replacerSize >= U32_LIMIT {
        return false;
      }
      if mruTargetSize + increase <= replacerSize {
        mruTargetSize := mruTargetSize + increase;
      }
      return true;
    }

    method LowerTarget()
      requires mfuGhost != [] && !TargetUnderflows(Model())
      modifies this`mruTargetSize
      ensures mruTargetSize == LoweredTarget(old(mruTargetSize), |mruGhost|, |mfuGhost|)
    {
      if |mfuGhost| >= |mruGhost| && mruTargetSize - 1 > 0 {
        mruTargetSize := mruTargetSize - 1;
      } else {
        var decrease := |mruGhost| / |mfuGhost| % U32_LIMIT;
        if mruTargetSize >= decrease {
          mruTargetSize := mruTargetSize - decrease;
        }
      }
    }

    /** `ok` is false where the program panics; nothing is promised of the state then. */
    method RecordAccess(frameId: FrameId, pageId: PageId) returns (ok: bool)
      modifies this
      ensures ok <==> Record(old(Model()), Entry(frameId, pageId)).Done?
      ensures ok ==> Model() == Record(old(Model()), Entry(frameId, pageId)).value
    {
      var target := Entry(frameId, pageId);
      ghost var a := Model();
      timestampAccess := timestampAccess[target := clock];
      clock := clock + 1;

      if target in mru || target in mfu {
        mru := AllBut(mru, target);
        mfu := AllBut(mfu, target);
        mfu := [target] + mfu;
        return true;
      }

      if pageId in mruGhost {
        ok := RaiseTarget();
        if !ok {
          return;
        }
        mruGhost := AllBut(mruGhost, pageId);
        mfu := [target] + mfu;
        return true;
      }

      if pageId in mfuGhost {
        if |mfuGhost| >= |mruGhost| && mruTargetSize == 0 {
          return false;
        }
        LowerTarget();
        mfuGhost := AllBut(mfuGhost, pageId);
        mfu := [target] + mfu;
        return true;
      }

      if |mru| + |mruGhost| == replacerSize {
        mruGhost := PopBack(mruGhost);
        mru := [target] + mru;
        return true;
      }

      if |mru| + |mruGhost| < replacerSize {
        if |mru| + |mfu| + |mfuGhost| + |mruGhost| == 2 * replacerSize {
          mfuGhost := PopBack(mfuGhost);
          mru := [target] + mru;
        } else {
          mru := [target] + mru;
        }
        return true;
      }
      return true;
    }

    /** `Panic` is `curr_size - 1` on an unsigned zero. */
    method Evict() returns (r: Outcome<Option<FrameId>>)
      modifies this
      ensures r.Panic? <==> !Victim(old(Model())).NoPick? && old(Model()).currSize == 0
      ensures r.Done? ==> Model() == Evicted(old(Model()))
      ensures r.Done? ==> (r.value.None? <==> Victim(old(Model())).NoPick?)
      ensures r.Done? && r.value.Some? ==> r.value.value == VictimEntry(old(Model())).frame
    {
      var shouldEvictFromMru := |mru| >= mruTargetSize;
      if shouldEvictFromMru {
        r := EvictFromMruGhost();
        if r.Panic? || r.value.Some? {
          return;
        }
        r := EvictFromMfuGhost();
      } else {
        r := EvictFromMfuGhost();
        if r.Panic? || r.value.Some? {
          return;
        }
        r := EvictFromMruGhost();
      }
    }

    method EvictFromMfuGhost() returns (r: Outcome<Option<FrameId>>)
      modifies this
      ensures var a, m := old(Model()), LastMarked(old(mfu), old(evictablePages));
              && (r.Panic? <==> m >= 0 && a.currSize == 0)
              && (m < 0 ==> r == Done(None) && Model() == a)
              && (m >= 0 && r.Done? ==> r.value == Some(a.mfu[m].frame) && Model() == MfuTaken(a, m))
    {
      var i := |mfu|;
      while i > 0
        invariant 0 <= i <= |mfu| && Model() == old(Model())
        invariant forall j :: i <= j < |mfu| ==> mfu[j].frame !in evictablePages
      {
        i := i - 1;
        var e := mfu[i];
        if e.frame in evictablePages {
          if currSize == 0 {
            return Panic;
          }
          mfu := RemoveAt(mfu, i);
          mfuGhost := [e.page] + mfuGhost;
          evictablePages := evictablePages - {e.frame};
          timestampAccess := timestampAccess - {e};
          currSize := currSize - 1;
          return Done(Some(e.frame));
        }
      }
      return Done(None);
    }

    method EvictFromMruGhost() returns (r: Outcome<Option<FrameId>>)
      modifies this
      ensures var a, m := old(Model()), LastMarked(old(mru), old(evictablePages));
              && (r.Panic? <==> m >= 0 && a.currSize == 0)
              && (m < 0 ==> r == Done(None) && Model() == a)
              && (m >= 0 && r.Done? ==> r.value == Some(a.mru[m].frame) && Model() == MruTaken(a, m))
    {
      var i := |mru|;
      while i > 0
        invariant 0 <= i <= |mru| && Model() == old(Model())
        invariant forall j :: i <= j < |mru| ==> mru[j].frame !in evictablePages
      {
        i := i - 1;
        var e := mru[i];
        if e.frame in evictablePages {
          if currSize == 0 {
            return Panic;
          }
          mru := RemoveAt(mru, i);
          mruGhost := [e.page] + mruGhost;
          evictablePages := evictablePages - {e.frame};
          timestampAccess := timestampAccess - {e};
          currSize := currSize - 1;
          return Done(Some(e.frame));
        }
      }
      return Done(None);
    }
  }
}
