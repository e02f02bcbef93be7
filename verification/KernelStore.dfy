/**
 Kernel stores into user memory: `copy_to_user` writes the source page and then calls
 `orlix_host_user_refresh_page`, which drops the replaced segments without copying them back.
 The trap entry has synchronised the shadow before (runtime/trap.c), so source and logical
 memory agree when the kernel writes.
 */
module KernelStore {
  import opened HostTypes
  import opened Slices
  import opened ShadowModel
  import opened ShadowShape
  import opened ShadowProofs

  /** `orlix_host_user_refresh_page`. */
  function RefreshPage(pageSize: nat, s: Shadow, g: Segment, protection: Protection, o: Outcomes): (Shadow, bool)
    requires pageSize > 0
    requires |s.user| == ADDRESS_SPACE
    requires AllFit(s.mappings, |s.user|, |s.ram|)
    requires g.source + g.length <= |s.ram|
  {
    MapShadowUserPages(pageSize, s, g, protection, true, false, o)
  }

  function Written(s: Shadow, at: nat, bytes: seq<Byte>): (r: Shadow)
    requires at + |bytes| <= |s.ram|
  {
    s.(ram := Splice(s.ram, at, bytes))
  }

  ghost predicate Synced(s: Shadow) {
    DirtyFits(s) && s.ram == Logical(s)
  }

  lemma WrittenInv(pageSize: nat, s: Shadow, at: nat, bytes: seq<Byte>)
    requires pageSize > 0 && Inv(pageSize, s) && at + |bytes| <= |s.ram|
    ensures Inv(pageSize, Written(s, at, bytes))
    ensures AllFit(s.mappings, |s.user|, |s.ram|) && DirtyFits(s) && DirtyFits(Written(s, at, bytes))
  {
    WellFormedFits(pageSize, s);
  }

  /** A written byte shows in the logical memory unless a dirty segment still mirrors it. */
  lemma WrittenByte(s: Shadow, at: nat, bytes: seq<Byte>, p: nat)
    requires Synced(s) && Unaliased(Dirty(s.mappings)) && at + |bytes| <= |s.ram| && p < |s.ram|
    requires DirtyFits(Written(s, at, bytes))
    ensures Logical(Written(s, at, bytes))[p]
         == if exists h :: h in Dirty(s.mappings) && h.Mirrors(p) then Logical(s)[p]
            else Splice(Logical(s), at, bytes)[p]
  {
    var w := Written(s, at, bytes);
    if h :| h in Dirty(s.mappings) && h.Mirrors(p) {
      LogicalAt(s.user, s.ram, Dirty(s.mappings), h, p);
      LogicalAt(w.user, w.ram, Dirty(w.mappings), h, p);
    } else {
      LogicalElsewhere(s.user, s.ram, Dirty(s.mappings), p);
      LogicalElsewhere(w.user, w.ram, Dirty(w.mappings), p);
    }
  }

  /** Dropping segments without copying back: the source bytes become the logical bytes. */
  lemma DropWithoutCopy(pageSize: nat, s: Shadow, k: nat, lo: nat, hi: nat)
    requires pageSize > 0 && Inv(pageSize, s) && AllFit(s.mappings, |s.user|, |s.ram|)
    requires k < |s.mappings| && s.mappings[k].Contains(lo, hi)
    ensures var r := RemoveSegments(s, k, lo, hi, false);
            && Inv(pageSize, r) && DirtyFits(r) && Clear(r, lo, hi) && r.user == s.user && r.ram == s.ram
            && (forall h :: h in Dirty(r.mappings) <==> h in Dirty(s.mappings) && !h.Hits(lo, hi))
            && |r.mappings| == |s.mappings| && r.mappings[k].target == s.mappings[k].target
            && r.mappings[k].length == s.mappings[k].length && r.mappings[k].protection == s.mappings[k].protection
  {
    var r, copied := RemoveSegments(s, k, lo, hi, false), RemoveSegments(s, k, lo, hi, true);
    RemoveKeeps(pageSize, s, k, lo, hi);
    RemovedDirty(s, k, lo, hi);
    assert r.mappings == copied.mappings;
    WellFormedFits(pageSize, r);
  }

  lemma DroppedLogical(s: Shadow, r: Shadow, lo: nat, hi: nat, g: Segment, at: nat, bytes: seq<Byte>)
    requires Synced(s) && Unaliased(Dirty(s.mappings)) && at + |bytes| <= |s.ram| && DirtyFits(r)
    requires r.user == s.user && r.ram == Splice(s.ram, at, bytes)
    requires forall h :: h in Dirty(r.mappings) <==> h in Dirty(s.mappings) && !h.Hits(lo, hi)
    requires SourceFree(s, lo, hi, g) && g.source <= at && at + |bytes| <= g.source + g.length
    ensures Logical(r) == Splice(Logical(s), at, bytes)
  {
    forall p | 0 <= p < |s.ram|
      ensures Logical(r)[p] == Splice(Logical(s), at, bytes)[p]
    {
      if h :| h in Dirty(r.mappings) && h.Mirrors(p) {
        assert h.SourceApart(g);
        LogicalAt(s.user, s.ram, Dirty(s.mappings), h, p);
        LogicalAt(r.user, r.ram, Dirty(r.mappings), h, p);
      } else {
        LogicalElsewhere(r.user, r.ram, Dirty(r.mappings), p);
      }
    }
  }

  /** What is left of the mapping once the range is dropped, before the page is copied in again. */
  ghost predicate Dropped(pageSize: nat, s: Shadow, r: Shadow, k: nat, g: Segment, at: nat, bytes: seq<Byte>)
    requires pageSize > 0 && DirtyFits(s) && at + |bytes| <= |s.ram|
  {
    && Inv(pageSize, r) && DirtyFits(r) && k < |r.mappings| && |r.ram| == |s.ram|
    && SegmentOk(r.mappings[k], g, |r.ram|) && Clear(r, g.target, g.target + g.length)
    && (forall h :: h in Dirty(r.mappings) ==> h.SourceApart(g))
    && Logical(r) == Splice(Logical(s), at, bytes)
  }

  ghost predicate MayRefill(pageSize: nat, s: Shadow, k: nat, g: Segment, at: nat, bytes: seq<Byte>)
    requires pageSize > 0
  {
    && Inv(pageSize, s) && Synced(s) && at + |bytes| <= |s.ram| && k < |s.mappings|
    && SegmentOk(s.mappings[k], g, |s.ram|) && SourceFree(s, g.target, g.target + g.length, g)
    && g.source <= at && at + |bytes| <= g.source + g.length
  }

  lemma RefreshDrops(pageSize: nat, s: Shadow, k: nat, g: Segment, at: nat, bytes: seq<Byte>)
    requires pageSize > 0 && MayRefill(pageSize, s, k, g, at, bytes)
    ensures DirtyFits(s) && AllFit(s.mappings, |s.user|, |s.ram|) && g.target + g.length <= |s.user|
    ensures Dropped(pageSize, s, RemoveSegments(Written(s, at, bytes), k, g.target, g.target + g.length, false), k, g,
                    at, bytes)
  {
    var w := Written(s, at, bytes);
    WrittenInv(pageSize, s, at, bytes);
    assert MappingOk(pageSize, s.mappings[k], |s.ram|);
    DropWithoutCopy(pageSize, w, k, g.target, g.target + g.length);
    var removed := RemoveSegments(w, k, g.target, g.target + g.length, false);
    hide RemoveSegments, WellFormed, Logical, Clear;
    DroppedLogical(s, removed, g.target, g.target + g.length, g, at, bytes);
  }

  lemma FilledFrom(s: Shadow, k: nat, g: Segment, translate: bool, o: Outcomes)
    requires k < |s.mappings| && AllFit(s.mappings, |s.user|, |s.ram|)
    requires g.target + g.length <= |s.user| && g.source + g.length <= |s.ram|
    ensures var removed := RemoveSegments(s, k, g.target, g.target + g.length, false);
            FillPage(s, k, g, translate, false, o).0 ==
            if o.segmentNodes == 0 then CopyIn(removed, g, translate)
            else AddSegment(CopyIn(removed, g, translate), k, g)
  {
  }

  /** With the protection already in place the kernel's bytes win and nothing else changes. */
  lemma RefreshFound(pageSize: nat, s: Shadow, k: nat, g: Segment, at: nat, bytes: seq<Byte>, translate: bool,
                     o: Outcomes)
    requires pageSize > 0 && MayRefill(pageSize, s, k, g, at, bytes)
    requires !(s.mappings[k].protection.write && translate)
    ensures AllFit(s.mappings, |s.user|, |s.ram|) && g.target + g.length <= |s.user| && DirtyFits(s)
    ensures var r := FillPage(Written(s, at, bytes), k, g, translate, false, o).0;
            Inv(pageSize, r) && DirtyFits(r) && Logical(r) == Splice(Logical(s), at, bytes)
  {
    RefreshDrops(pageSize, s, k, g, at, bytes);
    var removed := RemoveSegments(Written(s, at, bytes), k, g.target, g.target + g.length, false);
    FilledFrom(Written(s, at, bytes), k, g, translate, o);
    hide RemoveSegments, Logical, FillPage, CopyIn, AddSegment, Inv, Clear, MayRefill;
    PlaceKeeps(pageSize, removed, k, g, translate);
  }

  /** A mapping that was just created has nothing to drop, so the view is copied back as if asked for. */
  lemma RefreshCreates(pageSize: nat, s: Shadow, g: Segment, protection: Protection, o: Outcomes)
    requires pageSize > 0 && |s.user| == ADDRESS_SPACE && AllFit(s.mappings, |s.user|, |s.ram|)
    requires g.source + g.length <= |s.ram|
    requires !BadRange(g.target, g.length)
    requires FindMapping(s.mappings, g.target, g.target + g.length, protection).None?
    ensures RefreshPage(pageSize, s, g, protection, o) == MapShadowUserPages(pageSize, s, g, protection, true, true, o)
  {
    var (created, ok) := CreateMapping(pageSize, s, g.target, g.length, protection, o);
    hide CreateMapping;
    if ok {
      assert SegmentsHit(created.mappings[0].segments, g.target, g.target + g.length) == [];
      assert RemoveSegments(created, 0, g.target, g.target + g.length, false)
          == RemoveSegments(created, 0, g.target, g.target + g.length, true);
    }
  }

  ghost predicate MayStore(pageSize: nat, s: Shadow, g: Segment, at: nat, bytes: seq<Byte>) {
    && !BadRange(g.target, g.length) && pageSize <= g.target && g.source != 0
    && g.source + g.length <= |s.ram| && SourceFree(s, g.target, g.target + g.length, g)
    && g.source <= at && at + |bytes| <= g.source + g.length
  }

  lemma RefreshWhenFound(pageSize: nat, s: Shadow, g: Segment, protection: Protection, k: nat, o: Outcomes)
    requires pageSize > 0 && |s.user| == ADDRESS_SPACE && AllFit(s.mappings, |s.user|, |s.ram|)
    requires !BadRange(g.target, g.length) && g.source != 0 && g.source + g.length <= |s.ram| && o.unprotect
    requires FindMapping(s.mappings, g.target, g.target + g.length, protection) == Some(k)
    ensures k < |s.mappings| && g.target + g.length <= |s.user|
    ensures RefreshPage(pageSize, s, g, protection, o) == FillPage(s, k, g, protection.execute, false, o)
  {
    hide FillPage, AllFit, FindMapping, CreateMapping;
  }

  lemma StoreKept(pageSize: nat, s: Shadow, g: Segment, protection: Protection, at: nat, bytes: seq<Byte>, o: Outcomes)
    requires IsPageSize(pageSize) && Inv(pageSize, s) && Synced(s) && MayStore(pageSize, s, g, at, bytes)
    requires o.unprotect && !(protection.write && protection.execute)
    requires FindMapping(s.mappings, g.target, g.target + g.length, protection).Some?
    requires |s.user| == ADDRESS_SPACE && AllFit(s.mappings, |s.user|, |s.ram|)
    ensures var r := RefreshPage(pageSize, Written(s, at, bytes), g, protection, o).0;
            Inv(pageSize, r) && DirtyFits(r) && Logical(r) == Splice(Logical(s), at, bytes)
  {
    var k := FindMapping(s.mappings, g.target, g.target + g.length, protection).value;
    hide Inv, AllFit, DirtyFits, Logical, Synced, SourceFree, FillPage, RefreshPage;
    RefreshWhenFound(pageSize, Written(s, at, bytes), g, protection, k, o);
    assert MayRefill(pageSize, s, k, g, at, bytes);
    hide Written, MayRefill, SegmentOk;
    RefreshFound(pageSize, s, k, g, at, bytes, protection.execute, o);
  }

  lemma ViewCopiedBack(pageSize: nat, s: Shadow, g: Segment, protection: Protection, at: nat, bytes: seq<Byte>,
                       o: Outcomes)
    requires IsPageSize(pageSize) && Inv(pageSize, s) && Synced(s) && MayStore(pageSize, s, g, at, bytes)
    requires o.unprotect && !(protection.write && protection.execute)
    requires FindMapping(s.mappings, g.target, g.target + g.length, protection).None?
    requires |s.user| == ADDRESS_SPACE && AllFit(s.mappings, |s.user|, |s.ram|)
    requires DirtyFits(Written(s, at, bytes))
    ensures var r := RefreshPage(pageSize, Written(s, at, bytes), g, protection, o).0;
            Inv(pageSize, r) && DirtyFits(r) && Logical(r) == Logical(Written(s, at, bytes))
  {
    var w := Written(s, at, bytes);
    WrittenInv(pageSize, s, at, bytes);
    hide Inv, AllFit, DirtyFits, Logical, Synced, SourceFree, RefreshPage, MapShadowUserPages;
    RefreshCreates(pageSize, w, g, protection, o);
    MapShadowKeeps(pageSize, w, g, protection, true, o);
  }

  /**
   A kernel store to a mapped user page survives the refresh exactly when the covering mapping already
   has the requested protection, or no byte of it is still mirrored with another value: otherwise the
   mapping is created anew and the old view is copied over the store.
   */
  lemma StoreSurvivesExactly(pageSize: nat, s: Shadow, g: Segment, protection: Protection, at: nat, bytes: seq<Byte>,
                             o: Outcomes)
    requires IsPageSize(pageSize) && Inv(pageSize, s) && Synced(s) && MayStore(pageSize, s, g, at, bytes)
    requires o.unprotect && !(protection.write && protection.execute)
    ensures AllFit(s.mappings, |s.user|, |s.ram|) && |s.user| == ADDRESS_SPACE
    ensures var r := RefreshPage(pageSize, Written(s, at, bytes), g, protection, o).0;
            && Inv(pageSize, r) && DirtyFits(r)
            && (Logical(r) == Splice(Logical(s), at, bytes) <==>
                  || FindMapping(s.mappings, g.target, g.target + g.length, protection).Some?
                  || forall p, h :: at <= p < at + |bytes| && h in Dirty(s.mappings) && h.Mirrors(p) ==>
                      bytes[p - at] == Logical(s)[p])
  {
    WrittenInv(pageSize, s, at, bytes);
    hide RefreshPage, Inv, AllFit, DirtyFits, Logical, Dirty;
    if FindMapping(s.mappings, g.target, g.target + g.length, protection).Some? {
      StoreKept(pageSize, s, g, protection, at, bytes, o);
    } else {
      ViewCopiedBack(pageSize, s, g, protection, at, bytes, o);
      WrittenExactly(s, at, bytes);
    }
  }

  lemma WrittenExactly(s: Shadow, at: nat, bytes: seq<Byte>)
    requires Synced(s) && Unaliased(Dirty(s.mappings)) && at + |bytes| <= |s.ram|
    requires DirtyFits(Written(s, at, bytes))
    ensures Logical(Written(s, at, bytes)) == Splice(Logical(s), at, bytes) <==>
            forall p, h :: at <= p < at + |bytes| && h in Dirty(s.mappings) && h.Mirrors(p) ==>
                bytes[p - at] == Logical(s)[p]
  {
    hide Logical;
    var w, wanted := Logical(Written(s, at, bytes)), Splice(Logical(s), at, bytes);
    forall p | 0 <= p < |s.ram|
      ensures w[p] == if exists h :: h in Dirty(s.mappings) && h.Mirrors(p) then Logical(s)[p] else wanted[p]
    {
      WrittenByte(s, at, bytes, p);
    }
    if w == wanted {
      forall p, h | at <= p < at + |bytes| && h in Dirty(s.mappings) && h.Mirrors(p)
        ensures bytes[p - at] == Logical(s)[p]
      {
        assert w[p] == wanted[p];
      }
    }
  }

  /** Concrete failure: a store to a page that is mapped writable, refreshed with read permission only, is lost. */
  lemma KernelStoreLost(s: Shadow, g: Segment, o: Outcomes)
    requires |s.user| == ADDRESS_SPACE && |s.ram| == 8192 && g == Segment(16384, 4096, 4096)
    requires s.mappings == [Mapping(16384, 16384, Protection(true, false), [g])]
    requires s.user[16384..20480] == s.ram[4096..8192] && s.ram[4096] == 0 && o.unprotect
    ensures AllFit(s.mappings, |s.user|, |s.ram|)
    ensures var r := RefreshPage(16384, Written(s, 4096, [1]), g, Protection(false, false), o).0;
            DirtyFits(s) && DirtyFits(r) && Logical(r) != Splice(Logical(s), 4096, [1])
  {
    ShownOnce(s, g);
    assert Logical(s)[4096] == 0;
    hide Logical, RefreshPage;
    StoreSurvivesExactly(16384, s, g, Protection(false, false), 4096, [1], o);
    assert g in Dirty(s.mappings) && g.Mirrors(4096) && [1][4096 - 4096] == 1;
  }

  lemma ShownOnce(s: Shadow, g: Segment)
    requires |s.user| == ADDRESS_SPACE && |s.ram| == 8192 && g == Segment(16384, 4096, 4096)
    requires s.mappings == [Mapping(16384, 16384, Protection(true, false), [g])]
    requires s.user[16384..20480] == s.ram[4096..8192]
    ensures Inv(16384, s) && Dirty(s.mappings) == {g} && Synced(s)
  {
    DirtyHas(s.mappings, s.mappings[0], g);
    assert Dirty(s.mappings) == {g} by {
      assert forall m :: m in s.mappings ==> m == s.mappings[0];
    }
    assert SegmentOk(s.mappings[0], g, |s.ram|);
    WellFormedFits(16384, s);
    forall p | 0 <= p < |s.ram|
      ensures Logical(s)[p] == s.ram[p]
    {
      AddClean(s.user, s.ram, {}, g, p);
    }
  }
}
