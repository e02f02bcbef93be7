/** Every operation on the user shadow keeps its invariant and the logical memory. */
module ShadowProofs {
  import opened HostTypes
  import opened Slices
  import opened Translation
  import opened ShadowModel
  import opened ShadowShape

  /** The new state is valid and has the same logical memory. */
  ghost predicate Preserves(pageSize: nat, s: Shadow, r: Shadow)
    requires pageSize > 0
  {
    && Inv(pageSize, r) && DirtyFits(s) && DirtyFits(r) && |r.ram| == |s.ram|
    && Logical(r) == Logical(s)
  }

  /** Also, no segment has become dirty. */
  ghost predicate Keeps(pageSize: nat, s: Shadow, r: Shadow)
    requires pageSize > 0
  {
    Preserves(pageSize, s, r) && Dirty(r.mappings) <= Dirty(s.mappings)
  }

  // ---------------------------------------------------------------- reading the logical memory

  lemma LogicalAt(user: seq<Byte>, ram: seq<Byte>, dirty: set<Segment>, g: Segment, p: nat)
    requires p < |ram| && Unaliased(dirty)
    requires forall h :: h in dirty ==> h.target + h.length <= |user|
    requires g in dirty && g.Mirrors(p)
    ensures LogicalByte(user, ram, dirty, p) == user[g.TargetOf(p)]
  {
    var h :| h in dirty && h.Mirrors(p) && LogicalByte(user, ram, dirty, p) == user[h.TargetOf(p)];
    if h != g {
      assert h.SourceApart(g);
    }
  }

  lemma LogicalElsewhere(user: seq<Byte>, ram: seq<Byte>, dirty: set<Segment>, p: nat)
    requires p < |ram|
    requires forall h :: h in dirty ==> h.target + h.length <= |user|
    requires forall h :: h in dirty ==> !h.Mirrors(p)
    ensures LogicalByte(user, ram, dirty, p) == ram[p]
  {
  }

  /** Copying one segment back before the others changes no logical byte. */
  lemma CopiedFirst(user: seq<Byte>, ram: seq<Byte>, later: set<Segment>, g: Segment, p: nat)
    requires p < |ram| && Unaliased(later + {g}) && g.source + g.length <= |ram|
    requires forall h :: h in later + {g} ==> h.target + h.length <= |user|
    ensures LogicalByte(user, Splice(ram, g.source, user[g.target..g.target + g.length]), later, p)
          == LogicalByte(user, ram, later + {g}, p)
  {
    hide LogicalByte;
    var copied := Splice(ram, g.source, user[g.target..g.target + g.length]);
    if h :| h in later && h.Mirrors(p) {
      LogicalAt(user, copied, later, h, p);
      LogicalAt(user, ram, later + {g}, h, p);
    } else {
      LogicalElsewhere(user, copied, later, p);
      if g.Mirrors(p) {
        LogicalAt(user, ram, later + {g}, g, p);
      } else {
        LogicalElsewhere(user, ram, later + {g}, p);
      }
    }
  }

  /** After a copy back, a source byte is what its (unique) copied segment showed. */
  lemma {:induction false} CopyBackByte(user: seq<Byte>, ram: seq<Byte>, gs: seq<Segment>, p: nat)
    requires Fits(gs, |user|, |ram|) && p < |ram|
    requires Unaliased(SetOf(gs))
    ensures CopyBack(user, ram, gs)[p] == LogicalByte(user, ram, SetOf(gs), p)
    decreases |gs|
  {
    hide LogicalByte;
    if gs == [] {
      LogicalElsewhere(user, ram, SetOf(gs), p);
    } else {
      var g, rest := gs[0], gs[1..];
      var ram1 := Splice(ram, g.source, user[g.target..g.target + g.length]);
      var all, later := SetOf(gs), SetOf(rest);
      assert all == later + {g};
      CopyBackByte(user, ram1, rest, p);
      CopiedFirst(user, ram, later, g, p);
    }
  }

  lemma DirtyHas(ms: seq<Mapping>, m: Mapping, g: Segment)
    requires m in ms && m.protection.write && g in m.segments
    ensures g in Dirty(ms)
  {
  }

  /** After a flush of a list of mappings the source agrees with the logical byte. */
  lemma {:induction false} FlushByte(user: seq<Byte>, ram: seq<Byte>, ms: seq<Mapping>, p: nat)
    requires AllFit(ms, |user|, |ram|) && p < |ram|
    requires Unaliased(Dirty(ms))
    ensures Flush(user, ram, ms)[p] == LogicalByte(user, ram, Dirty(ms), p)
    decreases |ms|
  {
    if ms != [] {
      var m, rest := ms[0], ms[1..];
      var ram1 := CopyBackMapping(user, ram, m);
      assert forall g :: g in Dirty(ms) <==> (m.protection.write && g in m.segments) || g in Dirty(rest);
      FlushByte(user, ram1, rest, p);
      var own := SetOf(m.segments);
      if m.protection.write {
        CopyBackByte(user, ram, m.segments, p);
      }
      if h :| h in Dirty(rest) && h.Mirrors(p) {
        LogicalAt(user, ram1, Dirty(rest), h, p);
        LogicalAt(user, ram, Dirty(ms), h, p);
      } else if h :| m.protection.write && h in m.segments && h.Mirrors(p) {
        LogicalAt(user, ram, own, h, p);
        LogicalAt(user, ram, Dirty(ms), h, p);
      }
    }
  }

  // ---------------------------------------------------------------- what leaves the logical memory alone

  /** Segments may stop being dirty once they were copied back. */
  lemma ForgetFlushed(user: seq<Byte>, ram: seq<Byte>, flushed: seq<Byte>, before: set<Segment>, copied: set<Segment>,
                      after: set<Segment>, p: nat)
    requires p < |ram| == |flushed| && Unaliased(before)
    requires forall g :: g in before ==> g.target + g.length <= |user|
    requires copied <= before && before - copied <= after <= before
    requires flushed[p] == LogicalByte(user, ram, copied, p)
    ensures LogicalByte(user, flushed, after, p) == LogicalByte(user, ram, before, p)
  {
    if g :| g in after && g.Mirrors(p) {
      LogicalAt(user, flushed, after, g, p);
      LogicalAt(user, ram, before, g, p);
    } else if g :| g in before && g.Mirrors(p) {
      assert g in copied;
      LogicalAt(user, ram, copied, g, p);
      LogicalAt(user, ram, before, g, p);
    }
  }

  /** User bytes under no dirty segment do not matter. */
  lemma ForgetUserBytes(user: seq<Byte>, user': seq<Byte>, ram: seq<Byte>, dirty: set<Segment>, p: nat)
    requires p < |ram| && Unaliased(dirty) && |user| == |user'|
    requires forall g :: g in dirty ==> g.target + g.length <= |user|
    requires forall g, a :: g in dirty && g.target <= a < g.target + g.length ==> user'[a] == user[a]
    ensures LogicalByte(user', ram, dirty, p) == LogicalByte(user, ram, dirty, p)
  {
    if g :| g in dirty && g.Mirrors(p) {
      LogicalAt(user, ram, dirty, g, p);
      LogicalAt(user', ram, dirty, g, p);
    }
  }

  /** A segment may become dirty while it shows its source. */
  lemma AddClean(user: seq<Byte>, ram: seq<Byte>, dirty: set<Segment>, g: Segment, p: nat)
    requires p < |ram| && Unaliased(dirty + {g})
    requires forall h :: h in dirty + {g} ==> h.target + h.length <= |user|
    requires g.source + g.length <= |ram|
    requires user[g.target..g.target + g.length] == ram[g.source..g.source + g.length]
    ensures LogicalByte(user, ram, dirty + {g}, p) == LogicalByte(user, ram, dirty, p)
  {
    if h :| h in dirty && h.Mirrors(p) {
      LogicalAt(user, ram, dirty + {g}, h, p);
      LogicalAt(user, ram, dirty, h, p);
    } else if g.Mirrors(p) {
      LogicalAt(user, ram, dirty + {g}, g, p);
      assert user[g.target..g.target + g.length][p - g.source] == ram[g.source..g.source + g.length][p - g.source];
    }
  }

  // ---------------------------------------------------------------- unmapping

  /** Copying mappings back and dropping them. */
  lemma DropMappings(pageSize: nat, s: Shadow, lo: nat, hi: nat)
    requires pageSize > 0 && Inv(pageSize, s)
    ensures AllFit(s.mappings, |s.user|, |s.ram|)
    ensures var r := Shadow(s.user, FlushHit(s, lo, hi), MappingsMissed(s.mappings, lo, hi));
            Keeps(pageSize, s, r)
  {
    WellFormedFits(pageSize, s);
    var ms := s.mappings;
    var hit, missed := MappingsHit(ms, lo, hi), MappingsMissed(ms, lo, hi);
    var r := Shadow(s.user, FlushHit(s, lo, hi), missed);
    DropShape(pageSize, s, lo, hi, r.ram);
    WellFormedFits(pageSize, r);
    assert Dirty(hit) <= Dirty(ms) && Dirty(missed) <= Dirty(ms) && Dirty(ms) - Dirty(hit) <= Dirty(missed);
    forall p | 0 <= p < |s.ram|
      ensures Logical(r)[p] == Logical(s)[p]
    {
      FlushByte(s.user, s.ram, hit, p);
      ForgetFlushed(s.user, s.ram, r.ram, Dirty(ms), Dirty(hit), Dirty(missed), p);
    }
  }

  lemma UnmapKeeps(pageSize: nat, s: Shadow, target: nat, length: nat)
    requires pageSize > 0 && Inv(pageSize, s)
    ensures AllFit(s.mappings, |s.user|, |s.ram|)
    ensures var r := UnmapRange(pageSize, s, target, length);
            Keeps(pageSize, s, r) && r.user == s.user
  {
    WellFormedFits(pageSize, s);
    var start, end := PageStart(pageSize, target), PageEnd(pageSize, target, length);
    if !(target == 0 || end == 0 || end <= start) {
      DropMappings(pageSize, s, start, end);
    }
  }

  /** Sync writes the logical memory to the source pages and changes nothing else. */
  lemma SyncKeeps(pageSize: nat, s: Shadow)
    requires pageSize > 0 && Inv(pageSize, s)
    ensures AllFit(s.mappings, |s.user|, |s.ram|)
    ensures Keeps(pageSize, s, Sync(s))
    ensures Sync(s).ram == Logical(s)
  {
    WellFormedFits(pageSize, s);
    var r := Sync(s);
    forall p | 0 <= p < |s.ram|
      ensures r.ram[p] == Logical(s)[p] == Logical(r)[p]
    {
      FlushByte(s.user, s.ram, s.mappings, p);
      ForgetFlushed(s.user, s.ram, r.ram, Dirty(s.mappings), Dirty(s.mappings), Dirty(s.mappings), p);
    }
  }

  // ---------------------------------------------------------------- creating and filling mappings

  lemma WriteClearRange(pageSize: nat, s: Shadow, at: nat, bytes: seq<Byte>)
    requires pageSize > 0 && Inv(pageSize, s)
    requires at + |bytes| <= |s.user| && Clear(s, at, at + |bytes|)
    ensures var r := s.(user := Splice(s.user, at, bytes));
            Keeps(pageSize, s, r)
  {
    WellFormedFits(pageSize, s);
    var r := s.(user := Splice(s.user, at, bytes));
    forall g, a | g in Dirty(s.mappings) && g.target <= a < g.target + g.length
      ensures r.user[a] == s.user[a]
    {
      assert !g.Hits(at, at + |bytes|);
    }
    forall p | 0 <= p < |s.ram|
      ensures Logical(r)[p] == Logical(s)[p]
    {
      ForgetUserBytes(s.user, r.user, s.ram, Dirty(s.mappings), p);
    }
  }

  /** Mappings in the way are dropped, the host pages come back zeroed, and an empty mapping is listed first. */
  lemma CreateSteps(pageSize: nat, s: Shadow, start: nat, end: nat, protection: Protection, cleared: Shadow,
                    zeroed: Shadow, created: Shadow)
    requires pageSize > 0 && Inv(pageSize, s) && AllFit(s.mappings, |s.user|, |s.ram|)
    requires 0 < start < end < ADDRESS_SPACE && start % pageSize == 0 && end % pageSize == 0
    requires cleared == Shadow(s.user, FlushHit(s, start, end), MappingsMissed(s.mappings, start, end))
    requires zeroed == cleared.(user := Splice(cleared.user, start, Zeros(end - start)))
    requires created == zeroed.(mappings := [Mapping(start, end - start, protection, [])] + cleared.mappings)
    ensures Keeps(pageSize, s, cleared) && Keeps(pageSize, s, zeroed) && Keeps(pageSize, s, created)
  {
    DropMappings(pageSize, s, start, end);
    MissClears(pageSize, cleared, start, end);
    WriteClearRange(pageSize, cleared, start, Zeros(end - start));
    PrependEmpty(pageSize, zeroed, start, end, protection);
  }

  lemma CreateAtKeeps(pageSize: nat, s: Shadow, start: nat, end: nat, protection: Protection, o: Outcomes)
    requires IsPageSize(pageSize) && Inv(pageSize, s) && AllFit(s.mappings, |s.user|, |s.ram|)
    requires 0 < start < end < ADDRESS_SPACE && start % pageSize == 0 && end % pageSize == 0
    ensures var (r, ok) := CreateAt(pageSize, s, start, end, protection, o);
            Keeps(pageSize, s, r) && (ok ==> r.mappings[0] == Mapping(start, end - start, protection, []))
  {
    AlignedUnmap(pageSize, s, start, end);
    var cleared := UnmapRange(pageSize, s, start, end - start);
    var zeroed := cleared.(user := Splice(cleared.user, start, Zeros(end - start)));
    CreateSteps(pageSize, s, start, end, protection, cleared, zeroed,
                zeroed.(mappings := [Mapping(start, end - start, protection, [])] + cleared.mappings));
  }

  lemma CreateKeeps(pageSize: nat, s: Shadow, target: nat, length: nat, protection: Protection, o: Outcomes)
    requires IsPageSize(pageSize) && Inv(pageSize, s)
    requires pageSize <= target && 0 < length
    ensures AllFit(s.mappings, |s.user|, |s.ram|)
    ensures var (r, ok) := CreateMapping(pageSize, s, target, length, protection, o);
            && Keeps(pageSize, s, r)
            && (ok ==> r.mappings[0].Contains(target, target + length) && r.mappings[0].protection == protection)
  {
    WellFormedFits(pageSize, s);
    PageBounds(pageSize, target, length);
    var start, end := PageStart(pageSize, target), PageEnd(pageSize, target, length);
    if end != 0 {
      CreateAtKeeps(pageSize, s, start, end, protection, o);
    }
  }

  lemma PrependEmpty(pageSize: nat, s: Shadow, start: nat, end: nat, protection: Protection)
    requires pageSize > 0 && Inv(pageSize, s)
    requires 0 < start < end < ADDRESS_SPACE && start % pageSize == 0 && end % pageSize == 0
    requires forall m :: m in s.mappings ==> !m.Hits(start, end)
    ensures var r := s.(mappings := [Mapping(start, end - start, protection, [])] + s.mappings);
            Keeps(pageSize, s, r)
  {
    WellFormedFits(pageSize, s);
    var r := s.(mappings := [Mapping(start, end - start, protection, [])] + s.mappings);
    assert Dirty(r.mappings) == Dirty(s.mappings);
    PrependShape(pageSize, s, start, end, protection);
  }

  /** Dropping the segments of one mapping in a range, after copying them back. */
  lemma RemoveKeeps(pageSize: nat, s: Shadow, k: nat, lo: nat, hi: nat)
    requires pageSize > 0 && Inv(pageSize, s)
    requires k < |s.mappings| && s.mappings[k].Contains(lo, hi)
    ensures AllFit(s.mappings, |s.user|, |s.ram|)
    ensures var r := RemoveSegments(s, k, lo, hi, true);
            && Keeps(pageSize, s, r) && Clear(r, lo, hi) && r.user == s.user
            && |r.mappings| == |s.mappings| && r.mappings[k].target == s.mappings[k].target
            && r.mappings[k].length == s.mappings[k].length && r.mappings[k].protection == s.mappings[k].protection
            && forall h :: h in Dirty(r.mappings) ==> !h.Hits(lo, hi)
  {
    WellFormedFits(pageSize, s);
    var m := s.mappings[k];
    var hit, missed := SegmentsHit(m.segments, lo, hi), SegmentsMissed(m.segments, lo, hi);
    var r := RemoveSegments(s, k, lo, hi, true);
    RemoveShape(pageSize, s, k, lo, hi, true);
    RemovedDirty(s, k, lo, hi);
    WellFormedFits(pageSize, r);
    var copied := if m.protection.write then SetOf(hit) else {};
    forall p | 0 <= p < |s.ram|
      ensures Logical(r)[p] == Logical(s)[p]
    {
      if m.protection.write {
        CopyBackByte(s.user, s.ram, hit, p);
      }
      ForgetFlushed(s.user, s.ram, r.ram, Dirty(s.mappings), copied, Dirty(r.mappings), p);
    }
  }

  lemma RemovedDirty(s: Shadow, k: nat, lo: nat, hi: nat)
    requires k < |s.mappings| && AllFit(s.mappings, |s.user|, |s.ram|)
    ensures var m, r := s.mappings[k], RemoveSegments(s, k, lo, hi, true);
            var copied := if m.protection.write then SetOf(SegmentsHit(m.segments, lo, hi)) else {};
            copied <= Dirty(s.mappings) && Dirty(s.mappings) - copied <= Dirty(r.mappings) <= Dirty(s.mappings)
  {
    var m, r := s.mappings[k], RemoveSegments(s, k, lo, hi, true);
    var m' := r.mappings[k];
    var copied := if m.protection.write then SetOf(SegmentsHit(m.segments, lo, hi)) else {};
    forall g | g in Dirty(r.mappings)
      ensures g in Dirty(s.mappings)
    {
      var n :| n in r.mappings && n.protection.write && g in n.segments;
      var i :| 0 <= i < |r.mappings| && r.mappings[i] == n;
      assert s.mappings[i] in s.mappings;
      DirtyHas(s.mappings, s.mappings[i], g);
    }
    forall g | g in Dirty(s.mappings) && g !in copied
      ensures g in Dirty(r.mappings)
    {
      var n :| n in s.mappings && n.protection.write && g in n.segments;
      var i :| 0 <= i < |s.mappings| && s.mappings[i] == n;
      assert r.mappings[i] in r.mappings;
      DirtyHas(r.mappings, r.mappings[i], g);
    }
  }

  /** Linking a segment over a range no other segment touches. */
  lemma AddKeeps(pageSize: nat, s: Shadow, k: nat, g: Segment)
    requires pageSize > 0 && Inv(pageSize, s) && k < |s.mappings|
    requires SegmentOk(s.mappings[k], g, |s.ram|) && Clear(s, g.target, g.target + g.length)
    requires s.mappings[k].protection.write ==> Unaliased(Dirty(s.mappings) + {g})
    requires s.mappings[k].protection.write ==>
               && |s.user| >= g.target + g.length
               && s.user[g.target..g.target + g.length] == s.ram[g.source..g.source + g.length]
    ensures var r := AddSegment(s, k, g);
            && Preserves(pageSize, s, r)
            && Dirty(r.mappings) == Dirty(s.mappings) + if s.mappings[k].protection.write then {g} else {}
  {
    var r := AddSegment(s, k, g);
    AddWellFormed(pageSize, s, k, g);
    AddedDirty(s, k, g);
    WellFormedFits(pageSize, s);
    WellFormedFits(pageSize, r);
    if s.mappings[k].protection.write {
      AddCleanLogical(s, r, g);
    } else {
      SameLogical(s, r);
    }
  }

  lemma SameLogical(s: Shadow, r: Shadow)
    requires DirtyFits(s) && DirtyFits(r) && r.user == s.user && r.ram == s.ram
    requires Dirty(r.mappings) == Dirty(s.mappings)
    ensures Logical(r) == Logical(s)
  {
    assert forall p | 0 <= p < |s.ram| :: Logical(r)[p] == Logical(s)[p];
  }

  lemma AddCleanLogical(s: Shadow, r: Shadow, g: Segment)
    requires DirtyFits(s) && DirtyFits(r) && r.user == s.user && r.ram == s.ram
    requires Dirty(r.mappings) == Dirty(s.mappings) + {g} && Unaliased(Dirty(s.mappings) + {g})
    requires g.target + g.length <= |s.user| && g.source + g.length <= |s.ram|
    requires s.user[g.target..g.target + g.length] == s.ram[g.source..g.source + g.length]
    ensures Logical(r) == Logical(s)
  {
    forall p | 0 <= p < |s.ram|
      ensures Logical(r)[p] == Logical(s)[p]
    {
      AddClean(s.user, s.ram, Dirty(s.mappings), g, p);
    }
  }

  lemma AddedDirty(s: Shadow, k: nat, g: Segment)
    requires k < |s.mappings|
    ensures Dirty(AddSegment(s, k, g).mappings)
          == Dirty(s.mappings) + if s.mappings[k].protection.write then {g} else {}
  {
    var r := AddSegment(s, k, g);
    forall h | h in Dirty(r.mappings)
      ensures h in Dirty(s.mappings) || (s.mappings[k].protection.write && h == g)
    {
      var n :| n in r.mappings && n.protection.write && h in n.segments;
      var i :| 0 <= i < |r.mappings| && r.mappings[i] == n;
      assert s.mappings[i] in s.mappings;
    }
    forall h | h in Dirty(s.mappings) || (s.mappings[k].protection.write && h == g)
      ensures h in Dirty(r.mappings)
    {
      assert r.mappings[k] in r.mappings;
      if h in Dirty(s.mappings) {
        var n :| n in s.mappings && n.protection.write && h in n.segments;
        var i :| 0 <= i < |s.mappings| && s.mappings[i] == n;
        assert r.mappings[i] in r.mappings;
        DirtyHas(r.mappings, r.mappings[i], h);
      } else {
        DirtyHas(r.mappings, r.mappings[k], h);
      }
    }
  }

  // ---------------------------------------------------------------- mapping one page

  /** Segments that are still dirty after the range was replaced do not share source bytes with `g`. */
  ghost predicate SourceFree(s: Shadow, lo: nat, hi: nat, g: Segment) {
    forall h :: h in Dirty(s.mappings) ==> h.Hits(lo, hi) || h.SourceApart(g)
  }

  lemma SourceIsLogical(s: Shadow, g: Segment)
    requires DirtyFits(s) && g.source + g.length <= |s.ram|
    requires forall h :: h in Dirty(s.mappings) ==> h.SourceApart(g)
    ensures Logical(s)[g.source..g.source + g.length] == s.ram[g.source..g.source + g.length]
  {
    var shown, kept := Logical(s)[g.source..g.source + g.length], s.ram[g.source..g.source + g.length];
    forall i | 0 <= i < |shown|
      ensures shown[i] == kept[i]
    {
      assert Logical(s)[g.source + i] == s.ram[g.source + i];
    }
  }

  /** What the user sees through a freshly copied page. */
  ghost function Shown(page: seq<Byte>, translate: bool): (r: seq<Byte>)
    ensures |r| == |page|
  {
    if translate then Translate(page) else page
  }

  /** Copying one page into a cleared range of mapping `k`, and linking it. */
  lemma PlaceKeeps(pageSize: nat, s: Shadow, k: nat, g: Segment, translate: bool)
    requires pageSize > 0 && Inv(pageSize, s) && DirtyFits(s) && k < |s.mappings|
    requires SegmentOk(s.mappings[k], g, |s.ram|) && Clear(s, g.target, g.target + g.length)
    requires s.mappings[k].protection.write ==> forall h :: h in Dirty(s.mappings) ==> h.SourceApart(g)
    requires s.mappings[k].protection.write && translate ==> Untranslatable(Logical(s)[g.source..g.source + g.length])
    ensures g.target + g.length <= |s.user|
    ensures var copied := CopyIn(s, g, translate);
            var added := AddSegment(copied, k, g);
            && Preserves(pageSize, s, copied)
            && Preserves(pageSize, s, added)
            && Dirty(added.mappings) == Dirty(s.mappings) + if s.mappings[k].protection.write then {g} else {}
  {
    var m := s.mappings[k];
    assert MappingOk(pageSize, m, |s.ram|);
    var copied := CopyIn(s, g, translate);
    WriteClearRange(pageSize, s, g.target, Image(s.ram, g, translate));
    if m.protection.write {
      CopiedUnchanged(s, g, translate);
    }
    AddKeeps(pageSize, copied, k, g);
  }

  lemma SpliceShows(user: seq<Byte>, at: nat, bytes: seq<Byte>)
    requires at + |bytes| <= |user|
    ensures Splice(user, at, bytes)[at..at + |bytes|] == bytes
  {
  }

  lemma CopiedUnchanged(s: Shadow, g: Segment, translate: bool)
    requires DirtyFits(s) && g.target + g.length <= |s.user| && g.source + g.length <= |s.ram|
    requires forall h :: h in Dirty(s.mappings) ==> h.SourceApart(g)
    requires translate ==> Untranslatable(Logical(s)[g.source..g.source + g.length])
    ensures CopyIn(s, g, translate).user[g.target..g.target + g.length] == s.ram[g.source..g.source + g.length]
  {
    SourceIsLogical(s, g);
    hide Logical, Translate, Untranslatable, Dirty, DirtyFits;
    TranslateFixesExactly(s.ram[g.source..g.source + g.length]);
    var image := Image(s.ram, g, translate);
    hide Image;
    SpliceShows(s.user, g.target, image);
    hide Splice;
  }

  lemma FindKeeps(pageSize: nat, s: Shadow, target: nat, length: nat, protection: Protection, o: Outcomes)
    requires IsPageSize(pageSize) && Inv(pageSize, s)
    requires pageSize <= target && !BadRange(target, length)
    ensures AllFit(s.mappings, |s.user|, |s.ram|)
    ensures var (r, at) := FindOrCreate(pageSize, s, target, length, protection, o);
            && Keeps(pageSize, s, r)
            && (at.Some? ==>
                r.mappings[at.value].Contains(target, target + length) && r.mappings[at.value].protection == protection)
  {
    WellFormedFits(pageSize, s);
    if FindMapping(s.mappings, target, target + length, protection).None? {
      CreateKeeps(pageSize, s, target, length, protection, o);
    }
  }

  /** The caller's side of mapping one page without losing or changing logical bytes. */
  ghost predicate MayMap(pageSize: nat, s: Shadow, g: Segment, protection: Protection, translate: bool)
    requires DirtyFits(s)
  {
    && g.source + g.length <= |s.ram|
    && (BadRange(g.target, g.length) || pageSize <= g.target)
    && (protection.write ==> SourceFree(s, g.target, g.target + g.length, g))
    && (protection.write && protection.execute && translate ==>
        Untranslatable(Logical(s)[g.source..g.source + g.length]))
  }

  /** Replacing a range of mapping `k` by one page, once the mapping was found or created. */
  lemma FillPageKeeps(pageSize: nat, s: Shadow, k: nat, g: Segment, translate: bool, o: Outcomes)
    requires pageSize > 0 && Inv(pageSize, s) && DirtyFits(s) && AllFit(s.mappings, |s.user|, |s.ram|)
    requires k < |s.mappings| && SegmentOk(s.mappings[k], g, |s.ram|)
    requires s.mappings[k].protection.write ==> SourceFree(s, g.target, g.target + g.length, g)
    requires s.mappings[k].protection.write && translate ==> Untranslatable(Logical(s)[g.source..g.source + g.length])
    ensures g.target + g.length <= |s.user|
    ensures Preserves(pageSize, s, FillPage(s, k, g, translate, true, o).0)
  {
    hide RemoveSegments, Logical, WellFormed, Unaliased, Clear, AllFit, Dirty, Untranslatable;
    RemoveKeeps(pageSize, s, k, g.target, g.target + g.length);
    var removed := RemoveSegments(s, k, g.target, g.target + g.length, true);
    PlaceKeeps(pageSize, removed, k, g, translate);
  }

  lemma MapShadowKeeps(pageSize: nat, s: Shadow, g: Segment, protection: Protection, translate: bool, o: Outcomes)
    requires IsPageSize(pageSize) && Inv(pageSize, s) && DirtyFits(s)
    requires MayMap(pageSize, s, g, protection, translate)
    ensures AllFit(s.mappings, |s.user|, |s.ram|)
    ensures Preserves(pageSize, s, MapShadowUserPages(pageSize, s, g, protection, translate, true, o).0)
  {
    WellFormedFits(pageSize, s);
    assert |s.user| == ADDRESS_SPACE;
    hide Logical, WellFormed, Unaliased, FindOrCreate, FillPage;
    if !BadRange(g.target, g.length) && g.source != 0 {
      FindKeeps(pageSize, s, g.target, g.length, protection, o);
      var (found, at) := FindOrCreate(pageSize, s, g.target, g.length, protection, o);
      if at.Some? && o.unprotect {
        FillPageKeeps(pageSize, found, at.value, g, protection.execute && translate, o);
      }
    }
  }

  // ---------------------------------------------------------------- mapping a window

  /** One page of a window can be copied into mapping `k` of `s`. */
  ghost predicate MayPlace(s: Shadow, k: nat, x: PageSegment)
    requires DirtyFits(s) && k < |s.mappings|
  {
    var g, write := SegmentOf(x), s.mappings[k].protection.write;
    && SegmentOk(s.mappings[k], g, |s.ram|) && Clear(s, g.target, g.target + g.length)
    && (write ==> forall h :: h in Dirty(s.mappings) ==> h.SourceApart(g))
    && (write && x.executable ==> Untranslatable(Logical(s)[g.source..g.source + g.length]))
  }

  lemma StillMayPlace(pageSize: nat, s: Shadow, k: nat, x: PageSegment, y: PageSegment)
    requires pageSize > 0 && Inv(pageSize, s) && DirtyFits(s) && k < |s.mappings|
    requires MayPlace(s, k, x) && MayPlace(s, k, y)
    requires !SegmentOf(x).Hits(y.target, y.target + y.length)
    requires s.mappings[k].protection.write ==> SegmentOf(x).SourceApart(SegmentOf(y))
    ensures x.target + x.length <= |s.user|
    ensures var added := AddSegment(CopyIn(s, SegmentOf(x), x.executable), k, SegmentOf(x));
            Preserves(pageSize, s, added) && MayPlace(added, k, y)
  {
    var g := SegmentOf(x);
    PlaceKeeps(pageSize, s, k, g, x.executable);
    AddedClear(CopyIn(s, g, x.executable), k, g, y.target, y.target + y.length);
  }

  /** The first page of a window is placed; the others still may be. */
  lemma PlaceFirst(pageSize: nat, s: Shadow, k: nat, inputs: seq<PageSegment>)
    requires pageSize > 0 && Inv(pageSize, s) && DirtyFits(s) && k < |s.mappings| && inputs != []
    requires forall x :: x in inputs ==> MayPlace(s, k, x)
    requires InputsApart(inputs, s.mappings[k].protection.write)
    ensures inputs[0].target + inputs[0].length <= |s.user| && inputs[0].source + inputs[0].length <= |s.ram|
    ensures var g := SegmentOf(inputs[0]);
            var copied := CopyIn(s, g, inputs[0].executable);
            var added := AddSegment(copied, k, g);
            && Preserves(pageSize, s, copied) && Preserves(pageSize, s, added)
            && (forall y :: y in inputs[1..] ==> MayPlace(added, k, y))
            && InputsApart(inputs[1..], s.mappings[k].protection.write)
  {
    hide Logical, WellFormed, Unaliased, Clear, Dirty;
    var x, rest := inputs[0], inputs[1..];
    assert MayPlace(s, k, x);
    PlaceKeeps(pageSize, s, k, SegmentOf(x), x.executable);
    forall y | y in rest
      ensures MayPlace(AddSegment(CopyIn(s, SegmentOf(x), x.executable), k, SegmentOf(x)), k, y)
    {
      var j :| 0 <= j < |rest| && rest[j] == y;
      assert inputs[j + 1] == y;
      StillMayPlace(pageSize, s, k, x, y);
    }
    assert forall j | 0 <= j < |rest| :: rest[j] == inputs[j + 1];
  }

  lemma MayPlaceFits(pageSize: nat, s: Shadow, k: nat, inputs: seq<PageSegment>)
    requires pageSize > 0 && WellFormed(pageSize, s) && DirtyFits(s) && k < |s.mappings|
    requires forall x :: x in inputs ==> MayPlace(s, k, x)
    ensures InputsFit(inputs, |s.user|, |s.ram|) && AllFit(s.mappings, |s.user|, |s.ram|)
  {
    WellFormedFits(pageSize, s);
    assert MappingOk(pageSize, s.mappings[k], |s.ram|);
    assert forall x :: x in inputs ==> SegmentOk(s.mappings[k], SegmentOf(x), |s.ram|);
  }

  lemma {:induction false} PlaceAllKeeps(pageSize: nat, s: Shadow, k: nat, inputs: seq<PageSegment>, nodes: nat)
    requires pageSize > 0 && Inv(pageSize, s) && DirtyFits(s) && k < |s.mappings|
    requires forall x :: x in inputs ==> MayPlace(s, k, x)
    requires InputsApart(inputs, s.mappings[k].protection.write)
    ensures InputsFit(inputs, |s.user|, |s.ram|) && AllFit(s.mappings, |s.user|, |s.ram|)
    ensures Preserves(pageSize, s, PlaceAll(s, k, inputs, nodes).0)
    decreases |inputs|
  {
    MayPlaceFits(pageSize, s, k, inputs);
    hide Logical, WellFormed, Unaliased, Clear, Dirty, AllFit, MayPlace, InputsApart;
    if inputs != [] {
      PlaceFirst(pageSize, s, k, inputs);
      var g := SegmentOf(inputs[0]);
      var added := AddSegment(CopyIn(s, g, inputs[0].executable), k, g);
      if nodes > 0 {
        PlaceAllKeeps(pageSize, added, k, inputs[1..], nodes - 1);
      }
    }
  }

  /** The caller's side of refreshing a window without losing or changing logical bytes. */
  ghost predicate MayRefresh(pageSize: nat, s: Shadow, target: nat, length: nat, inputs: seq<PageSegment>)
    requires DirtyFits(s)
  {
    var protection := WindowProtection(inputs);
    && (BadRange(target, length) || pageSize <= target)
    && InputsReadable(inputs, |s.ram|)
    && InputsApart(inputs, protection.write)
    && forall x :: x in inputs ==>
         && (protection.write ==> SourceFree(s, target, target + length, SegmentOf(x)))
         && (protection.write && x.executable ==> Untranslatable(Logical(s)[x.source..x.source + x.length]))
  }

  lemma WindowMayPlace(pageSize: nat, s: Shadow, k: nat, target: nat, length: nat, x: PageSegment)
    requires pageSize > 0 && Inv(pageSize, s) && DirtyFits(s) && AllFit(s.mappings, |s.user|, |s.ram|)
    requires k < |s.mappings| && s.mappings[k].Contains(target, target + length)
    requires InputOk(x, target, target + length) && x.source + x.length <= |s.ram|
    requires s.mappings[k].protection.write ==> SourceFree(s, target, target + length, SegmentOf(x))
    requires s.mappings[k].protection.write && x.executable ==>
               Untranslatable(Logical(s)[x.source..x.source + x.length])
    ensures var removed := RemoveSegments(s, k, target, target + length, true);
            Keeps(pageSize, s, removed) && MayPlace(removed, k, x)
  {
    hide RemoveSegments, Logical, WellFormed, Unaliased, Clear, AllFit, Dirty, DirtyFits, Untranslatable;
    RemoveKeeps(pageSize, s, k, target, target + length);
    var removed := RemoveSegments(s, k, target, target + length, true);
    ClearPart(removed, target, target + length, x.target, x.target + x.length);
    if s.mappings[k].protection.write {
      forall h | h in Dirty(removed.mappings)
        ensures h.SourceApart(SegmentOf(x))
      {
        assert h in Dirty(s.mappings) && !h.Hits(target, target + length);
      }
    }
  }

  lemma FillWindowKeeps(pageSize: nat, s: Shadow, k: nat, target: nat, length: nat, inputs: seq<PageSegment>,
                        nodes: nat)
    requires pageSize > 0 && Inv(pageSize, s) && DirtyFits(s) && AllFit(s.mappings, |s.user|, |s.ram|)
    requires k < |s.mappings| && s.mappings[k].Contains(target, target + length)
    requires s.mappings[k].protection == WindowProtection(inputs)
    requires MayRefresh(pageSize, s, target, length, inputs)
    requires forall x :: x in inputs ==> InputOk(x, target, target + length)
    ensures InputsFit(inputs, |s.user|, |s.ram|)
    ensures Preserves(pageSize, s, PlaceAll(RemoveSegments(s, k, target, target + length, true), k, inputs, nodes).0)
  {
    assert MappingOk(pageSize, s.mappings[k], |s.ram|);
    hide Logical, WellFormed, Unaliased, Clear, RemoveSegments, PlaceAll, MayPlace, AllFit, Dirty, Untranslatable;
    RemoveKeeps(pageSize, s, k, target, target + length);
    var removed := RemoveSegments(s, k, target, target + length, true);
    forall x | x in inputs
      ensures MayPlace(removed, k, x)
    {
      WindowMayPlace(pageSize, s, k, target, length, x);
    }
    PlaceAllKeeps(pageSize, removed, k, inputs, nodes);
  }

  lemma MayRefreshAfterFind(pageSize: nat, s: Shadow, r: Shadow, target: nat, length: nat, inputs: seq<PageSegment>)
    requires pageSize > 0 && DirtyFits(s) && Keeps(pageSize, s, r)
    requires MayRefresh(pageSize, s, target, length, inputs)
    ensures MayRefresh(pageSize, r, target, length, inputs)
  {
  }

  lemma RefreshWindowKeeps(pageSize: nat, s: Shadow, target: nat, length: nat, inputs: seq<PageSegment>, o: Outcomes)
    requires IsPageSize(pageSize) && Inv(pageSize, s) && DirtyFits(s)
    requires MayRefresh(pageSize, s, target, length, inputs)
    ensures AllFit(s.mappings, |s.user|, |s.ram|)
    ensures Preserves(pageSize, s, RefreshWindow(pageSize, s, target, length, inputs, o).0)
  {
    WellFormedFits(pageSize, s);
    if !(BadRange(target, length) || inputs == [] || exists x :: x in inputs && !InputOk(x, target, target + length)) {
      FindKeeps(pageSize, s, target, length, WindowProtection(inputs), o);
      var (found, at) := FindOrCreate(pageSize, s, target, length, WindowProtection(inputs), o);
      if at.Some? && o.unprotect {
        MayRefreshAfterFind(pageSize, s, found, target, length, inputs);
        FillWindowKeeps(pageSize, found, at.value, target, length, inputs, o.segmentNodes);
        var m := found.mappings[at.value];
        var (placed, ok) :=
            PlaceAll(RemoveSegments(found, at.value, target, target + length, true), at.value, inputs, o.segmentNodes);
        UnmapKeeps(pageSize, placed, m.target, m.length);
      }
    }
  }
}
