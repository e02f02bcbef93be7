/**
 The user shadow as the host adapter keeps it: a list of mapping records whose segment lists are
 edited in place, over memory that is copied between user pages and source pages. Every method is
 proved to compute the function of the same name in `ShadowModel`.

 A C list is a `seq` here; unlinking a node is removing an element.
 */
module UserShadow {
  import opened HostTypes
  import opened Slices
  import opened Translation
  import opened ShadowModel

  class UserMapping {
    const target: nat
    const length: nat
    const protection: Protection
    var segments: seq<Segment>

    constructor (target: nat, length: nat, protection: Protection)
      ensures this.target == target && this.length == length && this.protection == protection && segments == []
    {
      this.target, this.length, this.protection := target, length, protection;
      segments := [];
    }

    ghost function Value(): Mapping
      reads this
    {
      Mapping(target, length, protection, segments)
    }
  }

  ghost function Values(ms: seq<UserMapping>): (r: seq<Mapping>)
    reads ms
    ensures |r| == |ms|
    ensures forall i :: 0 <= i < |ms| ==> r[i] == ms[i].Value()
  {
    seq(|ms|, i requires 0 <= i < |ms| reads ms => ms[i].Value())
  }

  ghost predicate Distinct(ms: seq<UserMapping>) {
    forall i, j :: 0 <= i < j < |ms| ==> ms[i] != ms[j]
  }

  lemma ValuesWithout(ms: seq<UserMapping>, i: nat)
    requires i < |ms|
    ensures var less := ms[..i] + ms[i + 1..];
            Values(less)[..i] == Values(ms)[..i] && Values(less)[i..] == Values(ms)[i + 1..]
    ensures Distinct(ms) ==> Distinct(ms[..i] + ms[i + 1..])
    ensures forall userSize, ramSize :: AllFit(Values(ms), userSize, ramSize) ==>
              AllFit(Values(ms[..i] + ms[i + 1..]), userSize, ramSize)
  {
    var less := ms[..i] + ms[i + 1..];
    assert forall j :: 0 <= j < |less| ==> Values(less)[j] == Values(ms)[if j < i then j else j + 1];
    forall j | i <= j < |less|
      ensures Values(less)[j] == Values(ms)[i + 1..][j - i]
    {
      assert less[j] == ms[j + 1];
    }
  }

  /** One step of the segment loop, on the list: the node at `i` is unlinked or passed. */
  lemma SegmentStep(all: seq<Segment>, i: nat, lo: nat, hi: nat)
    requires i < |all|
    ensures var unlinked := all[..i] + all[i + 1..];
            && unlinked[..i] == all[..i] && unlinked[i..] == all[i + 1..]
            && (all[i].Hits(lo, hi) ==>
                  && SegmentsMissed(all[i..], lo, hi) == SegmentsMissed(all[i + 1..], lo, hi)
                  && SegmentsHit(all[i..], lo, hi) == [all[i]] + SegmentsHit(all[i + 1..], lo, hi))
            && (!all[i].Hits(lo, hi) ==>
                  && all[..i] + SegmentsMissed(all[i..], lo, hi) == all[..i + 1] + SegmentsMissed(all[i + 1..], lo, hi)
                  && SegmentsHit(all[i..], lo, hi) == SegmentsHit(all[i + 1..], lo, hi))
  {
    assert all[i..][1..] == all[i + 1..];
    assert all[..i + 1] == all[..i] + [all[i]];
  }

  lemma CopyBackStep(user: seq<Byte>, ram: seq<Byte>, gs: seq<Segment>)
    requires gs != [] && Fits(gs, |user|, |ram|)
    ensures Fits(gs[1..], |user|, |ram|) && gs[0].target + gs[0].length <= |user|
    ensures gs[0].source + gs[0].length <= |ram|
    ensures CopyBack(user, ram, gs)
         == CopyBack(user, Splice(ram, gs[0].source, user[gs[0].target..gs[0].target + gs[0].length]), gs[1..])
  {
  }

  lemma CopyBackNone(user: seq<Byte>, ram: seq<Byte>, gs: seq<Segment>)
    requires gs == []
    ensures Fits(gs, |user|, |ram|) && CopyBack(user, ram, gs) == ram
  {
  }

  lemma NothingLeft(user: seq<Byte>, ram: seq<Byte>, all: seq<Segment>, i: nat, lo: nat, hi: nat)
    requires i == |all|
    ensures all[..i] + SegmentsMissed(all[i..], lo, hi) == all
    ensures CopyBack(user, ram, SegmentsHit(all[i..], lo, hi)) == ram
  {
  }

  /** The same step on the list of mappings. */
  lemma MappingStep(all: seq<Mapping>, i: nat, lo: nat, hi: nat)
    requires i < |all|
    ensures all[i].Hits(lo, hi) ==>
              && MappingsMissed(all[i..], lo, hi) == MappingsMissed(all[i + 1..], lo, hi)
              && MappingsHit(all[i..], lo, hi) == [all[i]] + MappingsHit(all[i + 1..], lo, hi)
    ensures !all[i].Hits(lo, hi) ==>
              && all[..i] + MappingsMissed(all[i..], lo, hi) == all[..i + 1] + MappingsMissed(all[i + 1..], lo, hi)
              && MappingsHit(all[i..], lo, hi) == MappingsHit(all[i + 1..], lo, hi)
  {
    assert all[i..][1..] == all[i + 1..];
    assert all[..i + 1] == all[..i] + [all[i]];
  }

  lemma FlushStep(user: seq<Byte>, ram: seq<Byte>, m: Mapping, rest: seq<Mapping>)
    requires AllFit([m] + rest, |user|, |ram|)
    ensures Fits(m.segments, |user|, |ram|) && AllFit(rest, |user|, |ram|)
    ensures Flush(user, ram, [m] + rest) == Flush(user, CopyBackMapping(user, ram, m), rest)
  {
    var all := [m] + rest;
    assert m in all && forall h :: h in rest ==> h in all;
    assert all[0] == m && all[1..] == rest;
    assert AllFit(rest, |user|, |ram|);
    hide Fits, AllFit, CopyBackMapping;
  }

  lemma NoMappingLeft(user: seq<Byte>, ram: seq<Byte>, all: seq<Mapping>, i: nat, lo: nat, hi: nat)
    requires i == |all|
    ensures all[..i] + MappingsMissed(all[i..], lo, hi) == all
    ensures Flush(user, ram, MappingsHit(all[i..], lo, hi)) == ram
  {
  }

  lemma PlaceStep(s: Shadow, k: nat, inputs: seq<PageSegment>, nodes: nat)
    requires k < |s.mappings| && inputs != [] && InputsFit(inputs, |s.user|, |s.ram|)
    requires AllFit(s.mappings, |s.user|, |s.ram|)
    ensures inputs[0] in inputs && InputsFit(inputs[1..], |s.user|, |s.ram|)
    ensures Fits([SegmentOf(inputs[0])], |s.user|, |s.ram|)
    ensures SegmentOf(inputs[0]) in [SegmentOf(inputs[0])]
    ensures var g := SegmentOf(inputs[0]);
            var copied := CopyIn(s, g, inputs[0].executable);
            if nodes == 0 then PlaceAll(s, k, inputs, nodes) == (copied, false)
            else
              var added := AddSegment(copied, k, g);
              AllFit(added.mappings, |s.user|, |s.ram|)
              && PlaceAll(s, k, inputs, nodes) == PlaceAll(added, k, inputs[1..], nodes - 1)
  {
    var g := SegmentOf(inputs[0]);
    assert inputs[0] in inputs;
    assert Fits([g] + s.mappings[k].segments, |s.user|, |s.ram|);
  }

  lemma PlaceNone(s: Shadow, k: nat, inputs: seq<PageSegment>, nodes: nat)
    requires k < |s.mappings| && inputs == [] && InputsFit(inputs, |s.user|, |s.ram|)
    requires AllFit(s.mappings, |s.user|, |s.ram|)
    ensures PlaceAll(s, k, inputs, nodes) == (s, true)
  {
  }

  /** A position in the rest of a list, as a position in the whole list. */
  function Later(r: Option<nat>, i: nat): Option<nat> {
    match r
    case None => None
    case Some(k) => Some(k + i)
  }

  lemma FindStart(all: seq<Mapping>, lo: nat, hi: nat, protection: Protection)
    ensures ShadowModel.FindMapping(all, lo, hi, protection)
          == Later(ShadowModel.FindMapping(all[0..], lo, hi, protection), 0)
    ensures ShadowModel.FindMapping(all[|all|..], lo, hi, protection) == None
  {
    assert all[0..] == all;
  }

  lemma FindStep(all: seq<Mapping>, i: nat, lo: nat, hi: nat, protection: Protection)
    requires i < |all|
    ensures all[i].Contains(lo, hi) && all[i].protection == protection ==>
              ShadowModel.FindMapping(all[i..], lo, hi, protection) == Some(0)
    ensures !(all[i].Contains(lo, hi) && all[i].protection == protection) ==>
              ShadowModel.FindMapping(all[i..], lo, hi, protection)
                  == Later(ShadowModel.FindMapping(all[i + 1..], lo, hi, protection), 1)
  {
    assert all[i..][1..] == all[i + 1..] && all[i..][0] == all[i];
  }

  class HostUserMemory {
    const pageSize: nat
    var user: seq<Byte>
    var ram: seq<Byte>
    var mappings: seq<UserMapping>

    ghost predicate Valid()
      reads this, mappings
    {
      && pageSize > 0 && |user| == ADDRESS_SPACE
      && Distinct(mappings)
      && AllFit(Values(mappings), |user|, |ram|)
    }

    ghost function State(): Shadow
      reads this, mappings
    {
      Shadow(user, ram, Values(mappings))
    }

    constructor (pageSize: nat, user: seq<Byte>, ram: seq<Byte>)
      requires pageSize > 0 && |user| == ADDRESS_SPACE
      ensures Valid() && State() == Shadow(user, ram, []) && this.pageSize == pageSize
    {
      this.pageSize, this.user, this.ram := pageSize, user, ram;
      mappings := [];
    }

    method CopyBackMapping(m: UserMapping)
      requires Fits(m.segments, |user|, |ram|)
      modifies this`ram
      ensures ram == ShadowModel.CopyBackMapping(user, old(ram), m.Value())
    {
      if !m.protection.write {
        return;
      }
      var i := 0;
      assert m.segments[0..] == m.segments;
      hide Fits, CopyBack, Splice;
      while i < |m.segments|
        invariant 0 <= i <= |m.segments| && |ram| == |old(ram)| && Fits(m.segments[i..], |user|, |ram|)
        invariant CopyBack(user, ram, m.segments[i..]) == CopyBack(user, old(ram), m.segments)
      {
        var g := m.segments[i];
        CopyBackStep(user, ram, m.segments[i..]);
        assert m.segments[i..][1..] == m.segments[i + 1..];
        ram := Splice(ram, g.source, user[g.target..g.target + g.length]);
        i := i + 1;
      }
      CopyBackNone(user, ram, m.segments[i..]);
    }

    method SyncWritableMappings()
      requires Valid()
      modifies this`ram
      ensures Valid() && State() == Sync(old(State()))
    {
      ghost var before := Values(mappings);
      var i := 0;
      while i < |mappings|
        invariant 0 <= i <= |mappings| && |ram| == |old(ram)|
        invariant Flush(user, ram, before[i..]) == Flush(user, old(ram), before)
      {
        assert before[i..][1..] == before[i + 1..] && before[i] in before;
        CopyBackMapping(mappings[i]);
        i := i + 1;
      }
    }

    method FindMapping(lo: nat, hi: nat, protection: Protection) returns (r: Option<nat>)
      ensures r == ShadowModel.FindMapping(Values(mappings), lo, hi, protection)
    {
      ghost var all := Values(mappings);
      FindStart(all, lo, hi, protection);
      hide ShadowModel.FindMapping;
      var i := 0;
      while i < |mappings|
        invariant 0 <= i <= |mappings|
        invariant ShadowModel.FindMapping(all, lo, hi, protection)
                == Later(ShadowModel.FindMapping(all[i..], lo, hi, protection), i)
      {
        var m := mappings[i];
        FindStep(all, i, lo, hi, protection);
        if m.target <= lo && hi <= m.target + m.length && m.protection == protection {
          return Some(i);
        }
        i := i + 1;
      }
      return None;
    }

    /** The loop that unlinks the segments of one mapping. */
    method UnlinkSegments(m: UserMapping, lo: nat, hi: nat, copyBack: bool)
      requires Fits(m.segments, |user|, |ram|)
      modifies this`ram, m`segments
      ensures m.segments == SegmentsMissed(old(m.segments), lo, hi)
      ensures ram == if copyBack && m.protection.write
            then CopyBack(user, old(ram), SegmentsHit(old(m.segments), lo, hi)) else old(ram)
    {
      hide SegmentsHit, SegmentsMissed, CopyBack;
      var flush := copyBack && m.protection.write;
      ghost var kept := SegmentsMissed(m.segments, lo, hi);
      ghost var flushed := CopyBack(user, ram, SegmentsHit(m.segments, lo, hi));
      var i := 0;
      assert m.segments[0..] == m.segments;
      while i < |m.segments|
        invariant 0 <= i <= |m.segments| && |ram| == |old(ram)| && Fits(m.segments, |user|, |ram|)
        invariant m.segments[..i] + SegmentsMissed(m.segments[i..], lo, hi) == kept
        invariant flush ==> flushed == CopyBack(user, ram, SegmentsHit(m.segments[i..], lo, hi))
        invariant !flush ==> ram == old(ram)
        decreases |m.segments| - i
      {
        var g := m.segments[i];
        ghost var all := m.segments;
        SegmentStep(all, i, lo, hi);
        if lo < g.target + g.length && g.target < hi {
          if flush {
            CopyBackStep(user, ram, SegmentsHit(all[i..], lo, hi));
            assert SegmentsHit(all[i..], lo, hi)[1..] == SegmentsHit(all[i + 1..], lo, hi);
            ram := Splice(ram, g.source, user[g.target..g.target + g.length]);
          }
          m.segments := m.segments[..i] + m.segments[i + 1..];
        } else {
          i := i + 1;
        }
      }
      NothingLeft(user, ram, m.segments, i, lo, hi);
    }

    method RemoveSegmentsInRange(m: UserMapping, ghost k: nat, lo: nat, hi: nat, copyBack: bool)
      requires Valid() && k < |mappings| && mappings[k] == m
      modifies this`ram, m`segments
      ensures Valid() && State() == RemoveSegments(old(State()), k, lo, hi, copyBack)
    {
      ghost var before := Values(mappings);
      assert before[k] in before;
      UnlinkSegments(m, lo, hi, copyBack);
      assert Values(mappings) == before[k := m.Value()];
    }

    /** The loop that unlinks every mapping of a host page range. */
    /** Copies a mapping back and unlinks it. */
    method DropMapping(i: nat)
      requires Valid() && i < |mappings|
      modifies this`ram, this`mappings
      ensures Valid() && |ram| == |old(ram)| && mappings == old(mappings)[..i] + old(mappings)[i + 1..]
      ensures Values(mappings)[..i] == old(Values(mappings))[..i]
      ensures Values(mappings)[i..] == old(Values(mappings))[i + 1..]
      ensures Fits(old(mappings[i].segments), |user|, |old(ram)|)
      ensures ram == ShadowModel.CopyBackMapping(user, old(ram), old(mappings[i].Value()))
    {
      assert Values(mappings)[i] in Values(mappings);
      CopyBackMapping(mappings[i]);
      ValuesWithout(mappings, i);
      mappings := mappings[..i] + mappings[i + 1..];
    }

    method UnmapPages(lo: nat, hi: nat)
      requires Valid()
      modifies this`ram, this`mappings
      ensures Valid()
      ensures State() == Shadow(user, FlushHit(old(State()), lo, hi), MappingsMissed(old(State()).mappings, lo, hi))
      ensures forall m :: m in mappings ==> m in old(mappings)
    {
      hide MappingsHit, MappingsMissed, Flush, Fits, Distinct, ShadowModel.CopyBackMapping;
      ghost var missed := MappingsMissed(Values(mappings), lo, hi);
      ghost var flushed := FlushHit(State(), lo, hi);
      var i := 0;
      assert Values(mappings)[0..] == Values(mappings);
      while i < |mappings|
        invariant 0 <= i <= |mappings| && Valid() && |ram| == |old(ram)|
        invariant forall m :: m in mappings ==> m in old(mappings)
        invariant Values(mappings)[..i] + MappingsMissed(Values(mappings)[i..], lo, hi) == missed
        invariant AllFit(MappingsHit(Values(mappings)[i..], lo, hi), |user|, |ram|)
        invariant Flush(user, ram, MappingsHit(Values(mappings)[i..], lo, hi)) == flushed
        decreases |mappings| - i
      {
        var m := mappings[i];
        ghost var all := Values(mappings);
        MappingStep(all, i, lo, hi);
        if lo < m.target + m.length && m.target < hi {
          FlushStep(user, ram, m.Value(), MappingsHit(all[i + 1..], lo, hi));
          DropMapping(i);
        } else {
          i := i + 1;
        }
      }
      NoMappingLeft(user, ram, Values(mappings), i, lo, hi);
    }

    method UnmapMappedRange(target: nat, length: nat)
      requires Valid()
      modifies this`ram, this`mappings
      ensures Valid() && State() == UnmapRange(pageSize, old(State()), target, length)
      ensures forall m :: m in mappings ==> m in old(mappings)
    {
      var start, end := PageStart(pageSize, target), PageEnd(pageSize, target, length);
      if target == 0 || end == 0 || end <= start {
        return;
      }
      UnmapPages(start, end);
    }

    /** Creation over known host pages; on success the new record is the first of the list. */
    method CreateAt(start: nat, end: nat, protection: Protection, o: Outcomes) returns (ok: bool)
      requires Valid() && start < end <= ADDRESS_SPACE
      modifies this
      ensures Valid() && (State(), ok) == ShadowModel.CreateAt(pageSize, old(State()), start, end, protection, o)
      ensures forall m :: m in mappings ==> m in old(mappings) || fresh(m)
    {
      hide UnmapRange, Distinct, AllFit;
      UnmapMappedRange(start, end - start);
      if !o.allocate {
        return false;
      }
      user := Splice(user, start, Zeros(end - start));
      if !o.mappingNode {
        return false;
      }
      LinkMapping(start, end - start, protection);
      return true;
    }

    method LinkMapping(target: nat, length: nat, protection: Protection)
      requires Valid()
      modifies this`mappings
      ensures Valid()
      ensures State() == old(State()).(mappings := [Mapping(target, length, protection, [])] + old(State()).mappings)
      ensures forall m :: m in mappings ==> m in old(mappings) || fresh(m)
    {
      ghost var before := Values(mappings);
      var m := new UserMapping(target, length, protection);
      mappings := [m] + mappings;
      assert Values(mappings) == [m.Value()] + before;
    }

    method FindOrCreate(target: nat, length: nat, protection: Protection, o: Outcomes) returns (r: Option<nat>)
      requires Valid()
      modifies this
      ensures Valid() && (State(), r) == ShadowModel.FindOrCreate(pageSize, old(State()), target, length, protection, o)
      ensures forall m :: m in mappings ==> m in old(mappings) || fresh(m)
    {
      hide Distinct, AllFit, ShadowModel.CreateAt, ShadowModel.FindMapping;
      r := FindMapping(target, target + length, protection);
      if r.None? {
        var start, end := PageStart(pageSize, target), PageEnd(pageSize, target, length);
        if target == 0 || end == 0 || end <= start {
          return None;
        }
        var ok := CreateAt(start, end, protection, o);
        r := if ok then Some(0) else None;
      }
    }

    method AddSegment(m: UserMapping, ghost k: nat, g: Segment)
      requires Valid() && k < |mappings| && mappings[k] == m && Fits([g], |user|, |ram|)
      modifies m`segments
      ensures Valid() && State() == ShadowModel.AddSegment(old(State()), k, g)
    {
      ghost var before := Values(mappings);
      assert before[k] in before && g in [g];
      m.segments := [g] + m.segments;
      assert Values(mappings) == before[k := m.Value()];
    }

    /** Copies a page in and rewrites it if it is code. */
    method CopyPage(g: Segment, translate: bool)
      requires Valid() && g.target + g.length <= |user| && g.source + g.length <= |ram|
      modifies this`user
      ensures Valid() && State() == CopyIn(old(State()), g, translate)
    {
      user := Splice(user, g.target, Image(ram, g, translate));
    }

    /** Replaces a range of a mapping by one page. */
    method FillPage(m: UserMapping, ghost k: nat, g: Segment, translate: bool, copyBack: bool, o: Outcomes)
      returns (ok: bool)
      requires Valid() && k < |mappings| && mappings[k] == m && Fits([g], |user|, |ram|)
      modifies this`ram, this`user, m`segments
      ensures Valid() && (State(), ok) == ShadowModel.FillPage(old(State()), k, g, translate, copyBack, o)
    {
      assert g in [g];
      hide RemoveSegments, CopyIn, Distinct, AllFit, ShadowModel.AddSegment;
      RemoveSegmentsInRange(m, k, g.target, g.target + g.length, copyBack);
      CopyPage(g, translate);
      if o.segmentNodes == 0 {
        return false;
      }
      AddSegment(m, k, g);
      return o.protect;
    }

    method MapShadowUserPages(g: Segment, protection: Protection, translate: bool, copyBack: bool, o: Outcomes)
      returns (ok: bool)
      requires Valid() && g.source + g.length <= |ram|
      modifies this, mappings
      ensures Valid() && (State(), ok)
            == ShadowModel.MapShadowUserPages(pageSize, old(State()), g, protection, translate, copyBack, o)
    {
      if BadRange(g.target, g.length) || g.source == 0 {
        return false;
      }
      var at := FindOrCreate(g.target, g.length, protection, o);
      if at.None? || !o.unprotect {
        return false;
      }
      var m := mappings[at.value];
      assert m in mappings;
      ok := FillPage(m, at.value, g, protection.execute && translate, copyBack, o);
    }

    method MappingMatches(g: Segment, protection: Protection) returns (r: bool)
      ensures r == Matches(Values(mappings), g, protection)
    {
      ghost var all := Values(mappings);
      var i := 0;
      while i < |mappings|
        invariant 0 <= i <= |mappings|
        invariant forall j :: 0 <= j < i ==>
              !(all[j].target <= g.target && (g.target + g.length) % ADDRESS_SPACE <= all[j].target + all[j].length
                                               && all[j].protection == protection && g in all[j].segments)
      {
        var m := mappings[i];
        assert all[i] in all;
        if m.target <= g.target && (g.target + g.length) % ADDRESS_SPACE <= m.target + m.length
           && m.protection == protection {
          var j := 0;
          while j < |m.segments|
            invariant 0 <= j <= |m.segments| && g !in m.segments[..j]
          {
            if m.segments[j] == g {
              return true;
            }
            j := j + 1;
          }
        }
        i := i + 1;
      }
      return false;
    }

    method MapPage(g: Segment, protection: Protection, o: Outcomes) returns (ok: bool)
      requires Valid() && g.source + g.length <= |ram|
      modifies this, mappings
      ensures Valid() && (State(), ok) == ShadowModel.MapPage(pageSize, old(State()), g, protection, o)
    {
      if !protection.execute {
        var matches := MappingMatches(g, protection);
        if matches {
          return true;
        }
      }
      ok := MapShadowUserPages(g, protection, true, true, o);
    }

    /** The loop of a window refresh that copies the pages in and links their segments. */
    method PlaceAll(m: UserMapping, ghost k: nat, inputs: seq<PageSegment>, nodes: nat) returns (ok: bool)
      requires Valid() && k < |mappings| && mappings[k] == m && InputsFit(inputs, |user|, |ram|)
      modifies this`user, m`segments
      ensures Valid() && (State(), ok) == ShadowModel.PlaceAll(old(State()), k, inputs, nodes)
    {
      hide ShadowModel.PlaceAll, AllFit, InputsFit;
      ghost var goal := ShadowModel.PlaceAll(State(), k, inputs, nodes);
      var i, left := 0, nodes;
      assert inputs[0..] == inputs;
      while i < |inputs|
        invariant 0 <= i <= |inputs| && Valid() && |user| == ADDRESS_SPACE
        invariant InputsFit(inputs[i..], |user|, |ram|)
        invariant ShadowModel.PlaceAll(State(), k, inputs[i..], left) == goal
      {
        PlaceStep(State(), k, inputs[i..], left);
        assert inputs[i..][1..] == inputs[i + 1..];
        ok := PlaceOne(m, k, inputs[i], left);
        if !ok {
          return;
        }
        i, left := i + 1, left - 1;
      }
      PlaceNone(State(), k, inputs[i..], left);
      return true;
    }

    method PlaceOne(m: UserMapping, ghost k: nat, x: PageSegment, left: nat) returns (ok: bool)
      requires Valid() && k < |mappings| && mappings[k] == m && Fits([SegmentOf(x)], |user|, |ram|)
      modifies this`user, m`segments
      ensures Valid() && ok == (left > 0)
      ensures SegmentOf(x) in [SegmentOf(x)]
      ensures var copied := CopyIn(old(State()), SegmentOf(x), x.executable);
              State() == if ok then ShadowModel.AddSegment(copied, k, SegmentOf(x)) else copied
    {
      var g := SegmentOf(x);
      assert g in [g];
      user := Splice(user, g.target, Image(ram, g, x.executable));
      if left == 0 {
        return false;
      }
      AddSegment(m, k, g);
      return true;
    }

    /** The pages of a window replace a range of a mapping; on failure the whole mapping is unmapped. */
    method FillWindow(m: UserMapping, ghost k: nat, target: nat, length: nat, inputs: seq<PageSegment>, o: Outcomes)
      returns (ok: bool)
      requires Valid() && k < |mappings| && mappings[k] == m && InputsFit(inputs, |user|, |ram|)
      modifies this, m`segments
      ensures Valid() && (State(), ok) == ShadowModel.FillWindow(pageSize, old(State()), k, target, length, inputs, o)
    {
      hide RemoveSegments, ShadowModel.PlaceAll, UnmapRange, InputsFit, Distinct;
      RemoveSegmentsInRange(m, k, target, target + length, true);
      ok := PlaceAll(m, k, inputs, o.segmentNodes);
      if !ok || !o.protect {
        UnmapMappedRange(m.target, m.length);
        return false;
      }
    }

    method RefreshWindow(target: nat, length: nat, inputs: seq<PageSegment>, o: Outcomes) returns (ok: bool)
      requires Valid() && InputsReadable(inputs, |ram|)
      modifies this, mappings
      ensures Valid() && (State(), ok) == ShadowModel.RefreshWindow(pageSize, old(State()), target, length, inputs, o)
    {
      if BadRange(target, length) || inputs == [] {
        return false;
      }
      var good, protection := CheckInputs(target, length, inputs);
      if !good {
        return false;
      }
      var at := FindOrCreate(target, length, protection, o);
      if at.None? || !o.unprotect {
        return false;
      }
      var m := mappings[at.value];
      assert m in mappings;
      ok := FillWindow(m, at.value, target, length, inputs, o);
    }

    /** The loop that validates the pages of a window and collects its protection. */
    method CheckInputs(target: nat, length: nat, inputs: seq<PageSegment>) returns (good: bool, protection: Protection)
      ensures good <==> forall x :: x in inputs ==> InputOk(x, target, target + length)
      ensures good ==> protection == WindowProtection(inputs)
    {
      var writable, executable := false, false;
      var i := 0;
      while i < |inputs|
        invariant 0 <= i <= |inputs|
        invariant forall x :: x in inputs[..i] ==> InputOk(x, target, target + length)
        invariant Protection(writable, executable) == WindowProtection(inputs[..i])
      {
        var x := inputs[i];
        assert x in inputs && inputs[..i + 1] == inputs[..i] + [x];
        if !InputOk(x, target, target + length) {
          return false, Protection(false, false);
        }
        writable, executable := writable || x.writable, executable || x.executable;
        i := i + 1;
      }
      assert inputs[..i] == inputs;
      return true, Protection(writable, executable);
    }
  }
}
