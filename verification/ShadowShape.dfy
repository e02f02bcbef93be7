/**
 Every operation on the user shadow keeps its shape: mappings stay host-page aligned and disjoint, and
 segments stay inside their mapping and disjoint. Nothing is asked about source bytes: sources may be
 aliased, pages may be rewritten, and protections may change.
 */
module ShadowShape {
  import opened HostTypes
  import opened Slices
  import opened ShadowModel
  import opened Arithmetic

  /** The new state is well formed and no memory was resized. */
  ghost predicate KeepsShape(pageSize: nat, s: Shadow, r: Shadow)
    requires pageSize > 0
  {
    WellFormed(pageSize, r) && |r.ram| == |s.ram|
  }

  // ---------------------------------------------------------------- page arithmetic

  lemma PageStartAligned(pageSize: nat, a: nat)
    requires pageSize > 0
    ensures PageStart(pageSize, a) % pageSize == 0
  {
    assert a - a % pageSize == pageSize * (a / pageSize) + 0;
    ModUnique(pageSize, a / pageSize, 0);
  }

  lemma RoundUpAligned(pageSize: nat, a: nat)
    requires pageSize > 0 && a % pageSize == 0
    ensures PageStart(pageSize, a + pageSize - 1) == a
  {
    var q := a / pageSize;
    assert a == pageSize * q;
    ModUnique(pageSize, q, pageSize - 1);
  }

  /** The host pages of a range at or above the first host page. */
  lemma PageBounds(pageSize: nat, target: nat, length: nat)
    requires IsPageSize(pageSize) && pageSize <= target && 0 < length
    ensures var start, end := PageStart(pageSize, target), PageEnd(pageSize, target, length);
            && 0 < start <= target && start % pageSize == 0
            && (end != 0 ==>
                  && target + length <= end < ADDRESS_SPACE && end % pageSize == 0
                  && PageStart(pageSize, start) == start && PageEnd(pageSize, start, end - start) == end)
  {
    var start, end := PageStart(pageSize, target), PageEnd(pageSize, target, length);
    PageStartAligned(pageSize, target);
    if end != 0 {
      PageStartAligned(pageSize, target + length + pageSize - 1);
      AlignedBelow(pageSize, end, ADDRESS_SPACE);
      RoundUpAligned(pageSize, end);
    }
  }

  // ---------------------------------------------------------------- unmapping and creating

  lemma WellFormedFits(pageSize: nat, s: Shadow)
    requires pageSize > 0 && WellFormed(pageSize, s)
    ensures AllFit(s.mappings, |s.user|, |s.ram|)
    ensures DirtyFits(s)
  {
    forall m, g | m in s.mappings && g in m.segments
      ensures g.target + g.length <= |s.user| && g.source + g.length <= |s.ram|
    {
      var i :| 0 <= i < |s.mappings| && s.mappings[i] == m;
      var j :| 0 <= j < |m.segments| && m.segments[j] == g;
      assert MappingOk(pageSize, s.mappings[i], |s.ram|);
      assert SegmentOk(m, m.segments[j], |s.ram|);
    }
  }

  lemma {:induction false} MissedApart(ms: seq<Mapping>, lo: nat, hi: nat)
    requires Apart(ms)
    ensures Apart(MappingsMissed(ms, lo, hi))
  {
    if ms != [] {
      MissedApart(ms[1..], lo, hi);
      forall m | m in ms[1..]
        ensures !ms[0].Hits(m.target, m.target + m.length)
      {
        var j :| 0 <= j < |ms[1..]| && ms[1..][j] == m;
        assert ms[j + 1] == m;
      }
    }
  }

  lemma DropShape(pageSize: nat, s: Shadow, lo: nat, hi: nat, ram: seq<Byte>)
    requires pageSize > 0 && WellFormed(pageSize, s) && |ram| == |s.ram|
    ensures KeepsShape(pageSize, s, Shadow(s.user, ram, MappingsMissed(s.mappings, lo, hi)))
  {
    var missed := MappingsMissed(s.mappings, lo, hi);
    MissedApart(s.mappings, lo, hi);
    forall i | 0 <= i < |missed|
      ensures MappingOk(pageSize, missed[i], |ram|)
    {
      assert missed[i] in s.mappings;
    }
  }

  /** Unmapping the exact host pages of a mapping or of a range to be created. */
  lemma AlignedUnmap(pageSize: nat, s: Shadow, start: nat, end: nat)
    requires IsPageSize(pageSize) && WellFormed(pageSize, s)
    requires 0 < start < end < ADDRESS_SPACE && start % pageSize == 0 && end % pageSize == 0
    ensures AllFit(s.mappings, |s.user|, |s.ram|)
    ensures UnmapRange(pageSize, s, start, end - start)
          == Shadow(s.user, FlushHit(s, start, end), MappingsMissed(s.mappings, start, end))
  {
    WellFormedFits(pageSize, s);
    AlignedBelow(pageSize, end, ADDRESS_SPACE);
    RoundUpAligned(pageSize, end);
    assert PageStart(pageSize, start) == start && PageEnd(pageSize, start, end - start) == end;
    hide PageStart, PageEnd, FlushHit, MappingsMissed, WellFormed;
  }

  lemma UnmapShape(pageSize: nat, s: Shadow, target: nat, length: nat)
    requires pageSize > 0 && WellFormed(pageSize, s)
    ensures AllFit(s.mappings, |s.user|, |s.ram|)
    ensures KeepsShape(pageSize, s, UnmapRange(pageSize, s, target, length))
  {
    WellFormedFits(pageSize, s);
    var start, end := PageStart(pageSize, target), PageEnd(pageSize, target, length);
    if !(target == 0 || end == 0 || end <= start) {
      DropShape(pageSize, s, start, end, FlushHit(s, start, end));
    }
  }

  lemma PrependShape(pageSize: nat, s: Shadow, start: nat, end: nat, protection: Protection)
    requires pageSize > 0 && WellFormed(pageSize, s)
    requires 0 < start < end < ADDRESS_SPACE && start % pageSize == 0 && end % pageSize == 0
    requires forall m :: m in s.mappings ==> !m.Hits(start, end)
    ensures KeepsShape(pageSize, s, s.(mappings := [Mapping(start, end - start, protection, [])] + s.mappings))
  {
    var empty := Mapping(start, end - start, protection, []);
    var r := s.(mappings := [empty] + s.mappings);
    assert MappingOk(pageSize, empty, |s.ram|);
    forall j | 0 < j < |r.mappings|
      ensures MappingOk(pageSize, r.mappings[j], |r.ram|)
      ensures !empty.Hits(r.mappings[j].target, r.mappings[j].target + r.mappings[j].length)
    {
      assert r.mappings[j] == s.mappings[j - 1] && s.mappings[j - 1] in s.mappings;
    }
  }

  lemma CreateAtShape(pageSize: nat, s: Shadow, start: nat, end: nat, protection: Protection, o: Outcomes)
    requires IsPageSize(pageSize) && WellFormed(pageSize, s) && AllFit(s.mappings, |s.user|, |s.ram|)
    requires 0 < start < end < ADDRESS_SPACE && start % pageSize == 0 && end % pageSize == 0
    ensures var (r, ok) := CreateAt(pageSize, s, start, end, protection, o);
            KeepsShape(pageSize, s, r) && (ok ==> r.mappings[0] == Mapping(start, end - start, protection, []))
  {
    AlignedUnmap(pageSize, s, start, end);
    DropShape(pageSize, s, start, end, FlushHit(s, start, end));
    var cleared := UnmapRange(pageSize, s, start, end - start);
    PrependShape(pageSize, cleared.(user := Splice(cleared.user, start, Zeros(end - start))), start, end, protection);
  }

  lemma FindShape(pageSize: nat, s: Shadow, target: nat, length: nat, protection: Protection, o: Outcomes)
    requires IsPageSize(pageSize) && WellFormed(pageSize, s) && AllFit(s.mappings, |s.user|, |s.ram|)
    requires pageSize <= target && !BadRange(target, length)
    ensures var (r, at) := FindOrCreate(pageSize, s, target, length, protection, o);
            && KeepsShape(pageSize, s, r)
            && (at.Some? ==> r.mappings[at.value].Contains(target, target + length))
  {
    PageBounds(pageSize, target, length);
    var start, end := PageStart(pageSize, target), PageEnd(pageSize, target, length);
    if FindMapping(s.mappings, target, target + length, protection).None? && end != 0 {
      CreateAtShape(pageSize, s, start, end, protection, o);
    }
  }

  // ---------------------------------------------------------------- removing and linking segments

  /** No segment of any mapping touches the user range. */
  ghost predicate Clear(s: Shadow, lo: nat, hi: nat) {
    forall m, g :: m in s.mappings && g in m.segments ==> !g.Hits(lo, hi)
  }

  lemma MissClears(pageSize: nat, s: Shadow, lo: nat, hi: nat)
    requires pageSize > 0 && WellFormed(pageSize, s)
    requires forall m :: m in s.mappings ==> !m.Hits(lo, hi)
    ensures Clear(s, lo, hi)
  {
    forall m, g | m in s.mappings && g in m.segments
      ensures !g.Hits(lo, hi)
    {
      var i :| 0 <= i < |s.mappings| && s.mappings[i] == m;
      var j :| 0 <= j < |m.segments| && m.segments[j] == g;
      assert SegmentOk(m, m.segments[j], |s.ram|);
    }
  }

  lemma ClearPart(s: Shadow, lo: nat, hi: nat, from: nat, to: nat)
    requires lo <= from && to <= hi && Clear(s, lo, hi)
    ensures Clear(s, from, to)
  {
    forall m, g | m in s.mappings && g in m.segments
      ensures !g.Hits(from, to)
    {
      assert !g.Hits(lo, hi);
    }
  }

  lemma PrependDisjoint(g: Segment, tail: seq<Segment>)
    requires Disjoint(tail) && forall h :: h in tail ==> !g.Hits(h.target, h.target + h.length)
    ensures Disjoint([g] + tail)
  {
    var all := [g] + tail;
    forall i, j | 0 <= i < j < |all|
      ensures !all[i].Hits(all[j].target, all[j].target + all[j].length)
    {
      assert all[j] == tail[j - 1] && tail[j - 1] in tail;
      assert i > 0 ==> all[i] == tail[i - 1];
    }
  }

  lemma TailDisjoint(gs: seq<Segment>)
    requires gs != [] && Disjoint(gs)
    ensures Disjoint(gs[1..]) && forall h :: h in gs[1..] ==> !gs[0].Hits(h.target, h.target + h.length)
  {
    var rest := gs[1..];
    assert forall i | 0 <= i < |rest| :: rest[i] == gs[i + 1];
    forall h | h in rest
      ensures !gs[0].Hits(h.target, h.target + h.length)
    {
      var k :| 0 <= k < |rest| && rest[k] == h;
      assert gs[k + 1] == h;
    }
  }

  lemma {:induction false} MissedDisjoint(gs: seq<Segment>, lo: nat, hi: nat)
    requires Disjoint(gs)
    ensures Disjoint(SegmentsMissed(gs, lo, hi))
  {
    if gs != [] {
      hide Disjoint;
      TailDisjoint(gs);
      MissedDisjoint(gs[1..], lo, hi);
      PrependDisjoint(gs[0], SegmentsMissed(gs[1..], lo, hi));
      assert [] + SegmentsMissed(gs[1..], lo, hi) == SegmentsMissed(gs[1..], lo, hi);
    }
  }

  lemma SegmentsMissedOk(m: Mapping, lo: nat, hi: nat, ramSize: nat)
    requires SegmentsOk(m, ramSize)
    ensures SegmentsOk(m.(segments := SegmentsMissed(m.segments, lo, hi)), ramSize)
  {
    var kept := SegmentsMissed(m.segments, lo, hi);
    MissedDisjoint(m.segments, lo, hi);
    forall i | 0 <= i < |kept|
      ensures SegmentOk(m.(segments := kept), kept[i], ramSize)
    {
      assert kept[i] in m.segments;
      var j :| 0 <= j < |m.segments| && m.segments[j] == kept[i];
      assert SegmentOk(m, m.segments[j], ramSize);
    }
  }

  lemma UpdatedWellFormed(pageSize: nat, s: Shadow, k: nat, segments: seq<Segment>, ram: seq<Byte>)
    requires pageSize > 0 && WellFormed(pageSize, s) && k < |s.mappings| && |ram| == |s.ram|
    requires SegmentsOk(s.mappings[k].(segments := segments), |s.ram|)
    ensures WellFormed(pageSize, Shadow(s.user, ram, s.mappings[k := s.mappings[k].(segments := segments)]))
  {
    var ms := s.mappings[k := s.mappings[k].(segments := segments)];
    assert MappingOk(pageSize, s.mappings[k], |s.ram|);
    assert forall i | 0 <= i < |ms| :: ms[i].target == s.mappings[i].target && ms[i].length == s.mappings[i].length;
  }

  lemma OtherMappingMisses(ms: seq<Mapping>, i: nat, k: nat)
    requires i < |ms| && k < |ms| && i != k && Apart(ms)
    ensures !ms[i].Hits(ms[k].target, ms[k].target + ms[k].length) || ms[i].length == 0 || ms[k].length == 0
  {
    if i < k {
      assert !ms[i].Hits(ms[k].target, ms[k].target + ms[k].length);
    } else {
      assert !ms[k].Hits(ms[i].target, ms[i].target + ms[i].length);
    }
  }

  lemma RemovedClear(pageSize: nat, s: Shadow, k: nat, lo: nat, hi: nat, copyBack: bool)
    requires pageSize > 0 && WellFormed(pageSize, s) && AllFit(s.mappings, |s.user|, |s.ram|)
    requires k < |s.mappings| && s.mappings[k].Contains(lo, hi)
    ensures Clear(RemoveSegments(s, k, lo, hi, copyBack), lo, hi)
  {
    var r := RemoveSegments(s, k, lo, hi, copyBack);
    forall m, g | m in r.mappings && g in m.segments
      ensures !g.Hits(lo, hi)
    {
      var i :| 0 <= i < |r.mappings| && r.mappings[i] == m;
      if i != k {
        var j :| 0 <= j < |m.segments| && m.segments[j] == g;
        assert MappingOk(pageSize, s.mappings[i], |s.ram|);
        assert SegmentOk(m, m.segments[j], |s.ram|);
        OtherMappingMisses(s.mappings, i, k);
      }
    }
  }

  lemma RemoveShape(pageSize: nat, s: Shadow, k: nat, lo: nat, hi: nat, copyBack: bool)
    requires pageSize > 0 && WellFormed(pageSize, s) && AllFit(s.mappings, |s.user|, |s.ram|)
    requires k < |s.mappings| && s.mappings[k].Contains(lo, hi)
    ensures var r := RemoveSegments(s, k, lo, hi, copyBack);
            && KeepsShape(pageSize, s, r) && Clear(r, lo, hi) && |r.mappings| == |s.mappings|
            && r.mappings[k].target == s.mappings[k].target && r.mappings[k].length == s.mappings[k].length
  {
    var m, r := s.mappings[k], RemoveSegments(s, k, lo, hi, copyBack);
    assert MappingOk(pageSize, m, |s.ram|);
    SegmentsMissedOk(m, lo, hi, |s.ram|);
    UpdatedWellFormed(pageSize, s, k, SegmentsMissed(m.segments, lo, hi), r.ram);
    RemovedClear(pageSize, s, k, lo, hi, copyBack);
  }

  lemma AddWellFormed(pageSize: nat, s: Shadow, k: nat, g: Segment)
    requires pageSize > 0 && WellFormed(pageSize, s) && k < |s.mappings|
    requires SegmentOk(s.mappings[k], g, |s.ram|) && Clear(s, g.target, g.target + g.length)
    ensures WellFormed(pageSize, AddSegment(s, k, g))
  {
    var m := s.mappings[k];
    var segments := [g] + m.segments;
    assert MappingOk(pageSize, m, |s.ram|);
    forall j | 0 < j < |segments|
      ensures SegmentOk(m, segments[j], |s.ram|)
      ensures !g.Hits(segments[j].target, segments[j].target + segments[j].length)
    {
      assert segments[j] == m.segments[j - 1] && m.segments[j - 1] in m.segments;
      assert !segments[j].Hits(g.target, g.target + g.length);
    }
    assert Disjoint(segments);
    UpdatedWellFormed(pageSize, s, k, segments, s.ram);
  }

  lemma AddedClear(s: Shadow, k: nat, g: Segment, lo: nat, hi: nat)
    requires k < |s.mappings| && Clear(s, lo, hi) && !g.Hits(lo, hi)
    ensures Clear(AddSegment(s, k, g), lo, hi)
  {
    var r := AddSegment(s, k, g);
    forall m, h | m in r.mappings && h in m.segments
      ensures !h.Hits(lo, hi)
    {
      var i :| 0 <= i < |r.mappings| && r.mappings[i] == m;
      assert s.mappings[i] in s.mappings;
      if h != g {
        assert h in s.mappings[i].segments;
      }
    }
  }

  /** Copying a page into a cleared range and linking it. */
  lemma PlaceShape(pageSize: nat, s: Shadow, k: nat, g: Segment, translate: bool)
    requires pageSize > 0 && WellFormed(pageSize, s) && k < |s.mappings|
    requires SegmentOk(s.mappings[k], g, |s.ram|) && Clear(s, g.target, g.target + g.length)
    ensures g.target + g.length <= |s.user|
    ensures KeepsShape(pageSize, s, CopyIn(s, g, translate))
    ensures KeepsShape(pageSize, s, AddSegment(CopyIn(s, g, translate), k, g))
  {
    assert MappingOk(pageSize, s.mappings[k], |s.ram|);
    AddWellFormed(pageSize, CopyIn(s, g, translate), k, g);
  }

  // ---------------------------------------------------------------- mapping one page

  /** A page lies in memory and outside the first host page, or is refused. */
  ghost predicate PageInReach(pageSize: nat, s: Shadow, g: Segment) {
    g.source + g.length <= |s.ram| && (BadRange(g.target, g.length) || pageSize <= g.target)
  }

  lemma FillPageShape(pageSize: nat, s: Shadow, k: nat, g: Segment, translate: bool, copyBack: bool, o: Outcomes)
    requires pageSize > 0 && WellFormed(pageSize, s) && AllFit(s.mappings, |s.user|, |s.ram|)
    requires k < |s.mappings| && SegmentOk(s.mappings[k], g, |s.ram|)
    ensures g.target + g.length <= |s.user|
    ensures KeepsShape(pageSize, s, FillPage(s, k, g, translate, copyBack, o).0)
  {
    hide RemoveSegments, AddSegment, Clear;
    RemoveShape(pageSize, s, k, g.target, g.target + g.length, copyBack);
    PlaceShape(pageSize, RemoveSegments(s, k, g.target, g.target + g.length, copyBack), k, g, translate);
  }

  /** Mapping or refreshing one page, with any protection, rewriting and copy-back. */
  lemma MapShadowShape(pageSize: nat, s: Shadow, g: Segment, protection: Protection, translate: bool, copyBack: bool,
                       o: Outcomes)
    requires IsPageSize(pageSize) && WellFormed(pageSize, s) && PageInReach(pageSize, s, g)
    ensures AllFit(s.mappings, |s.user|, |s.ram|)
    ensures KeepsShape(pageSize, s, MapShadowUserPages(pageSize, s, g, protection, translate, copyBack, o).0)
  {
    WellFormedFits(pageSize, s);
    hide FindOrCreate, FillPage;
    if !BadRange(g.target, g.length) && g.source != 0 {
      FindShape(pageSize, s, g.target, g.length, protection, o);
      var (found, at) := FindOrCreate(pageSize, s, g.target, g.length, protection, o);
      if at.Some? && o.unprotect {
        FillPageShape(pageSize, found, at.value, g, protection.execute && translate, copyBack, o);
      }
    }
  }

  // ---------------------------------------------------------------- mapping a window

  ghost predicate InputsApart(inputs: seq<PageSegment>, write: bool) {
    forall i, j :: 0 <= i < j < |inputs| ==>
      && !SegmentOf(inputs[i]).Hits(inputs[j].target, inputs[j].target + inputs[j].length)
      && (write ==> SegmentOf(inputs[i]).SourceApart(SegmentOf(inputs[j])))
  }

  /** Pages of a window lie in memory and do not overlap in user memory; the window is outside the first host page. */
  ghost predicate WindowInReach(pageSize: nat, s: Shadow, target: nat, length: nat, inputs: seq<PageSegment>) {
    && (BadRange(target, length) || pageSize <= target)
    && InputsReadable(inputs, |s.ram|) && InputsApart(inputs, false)
  }

  ghost predicate FitsAt(s: Shadow, k: nat, x: PageSegment)
    requires k < |s.mappings|
  {
    SegmentOk(s.mappings[k], SegmentOf(x), |s.ram|) && Clear(s, x.target, x.target + x.length)
  }

  lemma FitsAtFits(pageSize: nat, s: Shadow, k: nat, inputs: seq<PageSegment>)
    requires pageSize > 0 && WellFormed(pageSize, s) && k < |s.mappings|
    requires forall x :: x in inputs ==> FitsAt(s, k, x)
    ensures InputsFit(inputs, |s.user|, |s.ram|) && AllFit(s.mappings, |s.user|, |s.ram|)
  {
    WellFormedFits(pageSize, s);
    assert MappingOk(pageSize, s.mappings[k], |s.ram|);
    assert forall x :: x in inputs ==> FitsAt(s, k, x);
  }

  lemma StillFits(pageSize: nat, s: Shadow, k: nat, x: PageSegment, y: PageSegment)
    requires pageSize > 0 && WellFormed(pageSize, s) && k < |s.mappings| && FitsAt(s, k, x) && FitsAt(s, k, y)
    requires !SegmentOf(x).Hits(y.target, y.target + y.length)
    ensures x.target + x.length <= |s.user|
    ensures FitsAt(AddSegment(CopyIn(s, SegmentOf(x), x.executable), k, SegmentOf(x)), k, y)
  {
    PlaceShape(pageSize, s, k, SegmentOf(x), x.executable);
    AddedClear(CopyIn(s, SegmentOf(x), x.executable), k, SegmentOf(x), y.target, y.target + y.length);
  }

  /** The first page of a window is placed; the others still fit. */
  lemma PlaceFirstShape(pageSize: nat, s: Shadow, k: nat, inputs: seq<PageSegment>)
    requires pageSize > 0 && WellFormed(pageSize, s) && k < |s.mappings| && inputs != []
    requires InputsApart(inputs, false) && forall x :: x in inputs ==> FitsAt(s, k, x)
    ensures inputs[0].target + inputs[0].length <= |s.user| && inputs[0].source + inputs[0].length <= |s.ram|
    ensures var copied := CopyIn(s, SegmentOf(inputs[0]), inputs[0].executable);
            var added := AddSegment(copied, k, SegmentOf(inputs[0]));
            && KeepsShape(pageSize, s, copied) && KeepsShape(pageSize, s, added)
            && InputsApart(inputs[1..], false) && forall y :: y in inputs[1..] ==> FitsAt(added, k, y)
  {
    hide WellFormed, Clear;
    var x, rest := inputs[0], inputs[1..];
    assert FitsAt(s, k, x);
    PlaceShape(pageSize, s, k, SegmentOf(x), x.executable);
    hide CopyIn, AddSegment;
    assert forall j | 0 <= j < |rest| :: rest[j] == inputs[j + 1];
    forall y | y in rest
      ensures FitsAt(AddSegment(CopyIn(s, SegmentOf(x), x.executable), k, SegmentOf(x)), k, y)
    {
      var j :| 0 <= j < |rest| && rest[j] == y;
      assert inputs[j + 1] == y && FitsAt(s, k, y);
      StillFits(pageSize, s, k, x, y);
    }
  }

  lemma {:induction false} PlaceAllShape(pageSize: nat, s: Shadow, k: nat, inputs: seq<PageSegment>, nodes: nat)
    requires pageSize > 0 && WellFormed(pageSize, s) && k < |s.mappings|
    requires InputsApart(inputs, false) && forall x :: x in inputs ==> FitsAt(s, k, x)
    ensures InputsFit(inputs, |s.user|, |s.ram|) && AllFit(s.mappings, |s.user|, |s.ram|)
    ensures KeepsShape(pageSize, s, PlaceAll(s, k, inputs, nodes).0)
    decreases |inputs|
  {
    FitsAtFits(pageSize, s, k, inputs);
    if inputs != [] {
      PlaceFirstShape(pageSize, s, k, inputs);
      hide WellFormed, Clear, FitsAt, InputsApart, AllFit, Splice, Image;
      var added := AddSegment(CopyIn(s, SegmentOf(inputs[0]), inputs[0].executable), k, SegmentOf(inputs[0]));
      if nodes > 0 {
        PlaceAllShape(pageSize, added, k, inputs[1..], nodes - 1);
      }
    }
  }

  lemma FillWindowShape(pageSize: nat, s: Shadow, k: nat, target: nat, length: nat, inputs: seq<PageSegment>,
                        o: Outcomes)
    requires pageSize > 0 && WellFormed(pageSize, s) && AllFit(s.mappings, |s.user|, |s.ram|)
    requires k < |s.mappings| && s.mappings[k].Contains(target, target + length)
    requires InputsReadable(inputs, |s.ram|) && InputsApart(inputs, false)
    requires forall x :: x in inputs ==> InputOk(x, target, target + length)
    ensures InputsFit(inputs, |s.user|, |s.ram|)
    ensures KeepsShape(pageSize, s, FillWindow(pageSize, s, k, target, length, inputs, o).0)
  {
    var m := s.mappings[k];
    hide WellFormed, Clear, AllFit, RemoveSegments, PlaceAll, UnmapRange, FitsAt;
    RemoveShape(pageSize, s, k, target, target + length, true);
    var removed := RemoveSegments(s, k, target, target + length, true);
    forall x | x in inputs
      ensures FitsAt(removed, k, x)
    {
      FitsInCleared(removed, k, target, length, x);
    }
    PlaceAllShape(pageSize, removed, k, inputs, o.segmentNodes);
    UnmapShape(pageSize, PlaceAll(removed, k, inputs, o.segmentNodes).0, m.target, m.length);
  }

  lemma FitsInCleared(s: Shadow, k: nat, target: nat, length: nat, x: PageSegment)
    requires k < |s.mappings| && s.mappings[k].Contains(target, target + length)
    requires Clear(s, target, target + length)
    requires InputOk(x, target, target + length) && x.source + x.length <= |s.ram|
    ensures FitsAt(s, k, x)
  {
    ClearPart(s, target, target + length, x.target, x.target + x.length);
  }

  /** Refreshing a window, whatever its pages and whatever the host answers. */
  lemma RefreshWindowShape(pageSize: nat, s: Shadow, target: nat, length: nat, inputs: seq<PageSegment>, o: Outcomes)
    requires IsPageSize(pageSize) && WellFormed(pageSize, s) && WindowInReach(pageSize, s, target, length, inputs)
    ensures AllFit(s.mappings, |s.user|, |s.ram|)
    ensures KeepsShape(pageSize, s, RefreshWindow(pageSize, s, target, length, inputs, o).0)
  {
    WellFormedFits(pageSize, s);
    hide FindOrCreate, FillWindow;
    if !(BadRange(target, length) || inputs == [] || exists x :: x in inputs && !InputOk(x, target, target + length)) {
      FindShape(pageSize, s, target, length, WindowProtection(inputs), o);
      var (found, at) := FindOrCreate(pageSize, s, target, length, WindowProtection(inputs), o);
      if at.Some? && o.unprotect {
        FillWindowShape(pageSize, found, at.value, target, length, inputs, o);
      }
    }
  }
}
