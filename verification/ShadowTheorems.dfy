/** Main results about the user shadow: whole runs, exact effects, and where the code falls short. */
module ShadowTheorems {
  import opened HostTypes
  import opened Slices
  import opened Translation
  import opened ShadowModel
  import opened Arithmetic
  import opened ShadowShape
  import opened ShadowProofs

  // ---------------------------------------------------------------- user stores

  /** What a user store does to the logical memory: one byte if a writable segment covers the address. */
  ghost function StoreEffect(s: Shadow, address: nat, value: Byte): (r: seq<Byte>)
    requires DirtyFits(s)
    requires forall g :: g in Dirty(s.mappings) ==> g.source + g.length <= |s.ram|
    ensures |r| == |s.ram|
  {
    if exists g :: g in Dirty(s.mappings) && g.Hits(address, address + 1)
    then
      var g :| g in Dirty(s.mappings) && g.Hits(address, address + 1);
      Logical(s)[g.source + (address - g.target) := value]
    else Logical(s)
  }

  lemma DirtyBounds(pageSize: nat, s: Shadow)
    requires pageSize > 0 && WellFormed(pageSize, s)
    ensures DirtyFits(s)
    ensures forall g :: g in Dirty(s.mappings) ==> g.source + g.length <= |s.ram|
  {
    WellFormedFits(pageSize, s);
  }

  /** Segments do not share user bytes, in one mapping or in two. */
  lemma TargetsApart(pageSize: nat, s: Shadow, m: Mapping, g: Segment, n: Mapping, h: Segment, a: nat)
    requires pageSize > 0 && WellFormed(pageSize, s) && m in s.mappings && n in s.mappings
    requires g in m.segments && h in n.segments && g.Hits(a, a + 1) && h.Hits(a, a + 1)
    ensures m == n && g == h
  {
    SegmentInMapping(pageSize, s, m, g);
    SegmentInMapping(pageSize, s, n, h);
    var i :| 0 <= i < |s.mappings| && s.mappings[i] == m;
    var j :| 0 <= j < |s.mappings| && s.mappings[j] == n;
    assert i == j;
    assert MappingOk(pageSize, s.mappings[i], |s.ram|);
    DisjointApart(m.segments, g, h, a);
  }

  lemma DirtyTargetsApart(pageSize: nat, s: Shadow, g: Segment, h: Segment, a: nat)
    requires pageSize > 0 && WellFormed(pageSize, s)
    requires g in Dirty(s.mappings) && h in Dirty(s.mappings)
    requires g.Hits(a, a + 1) && h.Hits(a, a + 1)
    ensures g == h
  {
    var m :| m in s.mappings && m.protection.write && g in m.segments;
    var n :| n in s.mappings && n.protection.write && h in n.segments;
    TargetsApart(pageSize, s, m, g, n, h, a);
  }

  lemma DisjointApart(gs: seq<Segment>, g: Segment, h: Segment, a: nat)
    requires Disjoint(gs) && g in gs && h in gs && g.Hits(a, a + 1) && h.Hits(a, a + 1)
    ensures g == h
  {
    var x :| 0 <= x < |gs| && gs[x] == g;
    var y :| 0 <= y < |gs| && gs[y] == h;
    assert x == y;
  }

  /** No store is lost: a store under a writable segment changes exactly its logical byte. */
  lemma StoreKeeps(pageSize: nat, s: Shadow, address: nat, value: Byte)
    requires pageSize > 0 && Inv(pageSize, s) && address < |s.user|
    ensures Inv(pageSize, UserStore(s, address, value))
    ensures DirtyFits(s) && DirtyFits(UserStore(s, address, value))
    ensures forall g :: g in Dirty(s.mappings) ==> g.source + g.length <= |s.ram|
    ensures Logical(UserStore(s, address, value)) == StoreEffect(s, address, value)
  {
    DirtyBounds(pageSize, s);
    var r := UserStore(s, address, value);
    DirtyBounds(pageSize, r);
    if g :| g in Dirty(s.mappings) && g.Hits(address, address + 1) {
      StoreInside(pageSize, s, address, value, g);
    } else {
      forall p | 0 <= p < |s.ram|
        ensures Logical(r)[p] == Logical(s)[p]
      {
        ForgetUserBytes(s.user, r.user, s.ram, Dirty(s.mappings), p);
      }
    }
  }

  lemma StoreInside(pageSize: nat, s: Shadow, address: nat, value: Byte, g: Segment)
    requires pageSize > 0 && Inv(pageSize, s) && address < |s.user| && DirtyFits(s)
    requires g in Dirty(s.mappings) && g.Hits(address, address + 1)
    requires forall h :: h in Dirty(s.mappings) ==> h.source + h.length <= |s.ram|
    ensures DirtyFits(UserStore(s, address, value))
    ensures Logical(UserStore(s, address, value)) == StoreEffect(s, address, value)
  {
    var m :| m in s.mappings && m.protection.write && g in m.segments;
    SegmentInMapping(pageSize, s, m, g);
    var r := UserStore(s, address, value);
    assert r == s.(user := s.user[address := value]);
    StoreEffectAt(pageSize, s, address, value, g);
    forall p | 0 <= p < |s.ram|
      ensures Logical(r)[p] == StoreEffect(s, address, value)[p]
    {
      StoredByte(pageSize, s, address, value, g, p);
    }
  }

  /** The segment that covers an address is unique, so the store effect does not depend on the choice. */
  lemma StoreEffectAt(pageSize: nat, s: Shadow, address: nat, value: Byte, g: Segment)
    requires pageSize > 0 && Inv(pageSize, s) && DirtyFits(s)
    requires g in Dirty(s.mappings) && g.Hits(address, address + 1)
    requires forall h :: h in Dirty(s.mappings) ==> h.source + h.length <= |s.ram|
    ensures StoreEffect(s, address, value) == Logical(s)[g.source + (address - g.target) := value]
  {
    forall h | h in Dirty(s.mappings) && h.Hits(address, address + 1)
      ensures h == g
    {
      DirtyTargetsApart(pageSize, s, g, h, address);
    }
  }

  lemma StoredByte(pageSize: nat, s: Shadow, address: nat, value: Byte, g: Segment, p: nat)
    requires pageSize > 0 && Inv(pageSize, s) && address < |s.user| && DirtyFits(s) && p < |s.ram|
    requires g in Dirty(s.mappings) && g.Hits(address, address + 1)
    ensures LogicalByte(s.user[address := value], s.ram, Dirty(s.mappings), p)
         == if p == g.source + (address - g.target) then value else LogicalByte(s.user, s.ram, Dirty(s.mappings), p)
  {
    var D := Dirty(s.mappings);
    if p == g.source + (address - g.target) {
      LogicalAt(s.user[address := value], s.ram, D, g, p);
    } else if h :| h in D && h.Mirrors(p) {
      LogicalAt(s.user, s.ram, D, h, p);
      LogicalAt(s.user[address := value], s.ram, D, h, p);
      if h.TargetOf(p) == address {
        DirtyTargetsApart(pageSize, s, g, h, address);
      }
    }
  }

  lemma SegmentInMapping(pageSize: nat, s: Shadow, m: Mapping, g: Segment)
    requires pageSize > 0 && WellFormed(pageSize, s) && m in s.mappings && g in m.segments
    ensures SegmentOk(m, g, |s.ram|)
  {
    var i :| 0 <= i < |s.mappings| && s.mappings[i] == m;
    assert MappingOk(pageSize, s.mappings[i], |s.ram|);
    var j :| 0 <= j < |m.segments| && m.segments[j] == g;
    assert SegmentOk(m, m.segments[j], |s.ram|);
  }

  // ---------------------------------------------------------------- the exact effect of a window refresh

  ghost predicate Placeable(s: Shadow, k: nat, x: PageSegment)
    requires k < |s.mappings|
  {
    var g := SegmentOf(x);
    && SegmentOk(s.mappings[k], g, |s.ram|) && Clear(s, g.target, g.target + g.length)
    && forall h :: h in Dirty(s.mappings) ==> h.SourceApart(g)
  }

  lemma PlaceRaw(pageSize: nat, s: Shadow, k: nat, g: Segment, translate: bool)
    requires pageSize > 0 && Inv(pageSize, s) && k < |s.mappings|
    requires s.mappings[k].protection.write
    requires SegmentOk(s.mappings[k], g, |s.ram|) && Clear(s, g.target, g.target + g.length)
    requires forall h :: h in Dirty(s.mappings) ==> h.SourceApart(g)
    ensures g.target + g.length <= |s.user|
    ensures var added := AddSegment(CopyIn(s, g, translate), k, g);
            Inv(pageSize, added) && Dirty(added.mappings) == Dirty(s.mappings) + {g}
  {
    assert MappingOk(pageSize, s.mappings[k], |s.ram|);
    WriteClearRange(pageSize, s, g.target, Image(s.ram, g, translate));
    var copied := CopyIn(s, g, translate);
    AddWellFormed(pageSize, copied, k, g);
    AddedDirty(copied, k, g);
  }

  lemma StillPlaceable(pageSize: nat, s: Shadow, k: nat, x: PageSegment, y: PageSegment)
    requires pageSize > 0 && Inv(pageSize, s) && k < |s.mappings| && s.mappings[k].protection.write
    requires Placeable(s, k, x) && Placeable(s, k, y)
    requires !SegmentOf(x).Hits(y.target, y.target + y.length) && SegmentOf(x).SourceApart(SegmentOf(y))
    ensures x.target + x.length <= |s.user|
    ensures Placeable(AddSegment(CopyIn(s, SegmentOf(x), x.executable), k, SegmentOf(x)), k, y)
  {
    PlaceRaw(pageSize, s, k, SegmentOf(x), x.executable);
    AddedClear(CopyIn(s, SegmentOf(x), x.executable), k, SegmentOf(x), y.target, y.target + y.length);
  }

  ghost function SegmentsOf(inputs: seq<PageSegment>): set<Segment> {
    set x | x in inputs :: SegmentOf(x)
  }

  /** User bytes after all pages of a window were copied in. */
  ghost predicate WindowShows(before: Shadow, after: Shadow, inputs: seq<PageSegment>)
    requires InputsFit(inputs, |before.user|, |before.ram|)
  {
    && after.ram == before.ram && |after.user| == |before.user|
    && (forall a :: 0 <= a < |after.user| && (forall x :: x in inputs ==> !SegmentOf(x).Hits(a, a + 1)) ==>
        after.user[a] == before.user[a])
    && (forall x :: x in inputs ==>
        after.user[x.target..x.target + x.length] == Image(before.ram, SegmentOf(x), x.executable))
  }

  lemma PlaceableFits(pageSize: nat, s: Shadow, k: nat, inputs: seq<PageSegment>)
    requires pageSize > 0 && WellFormed(pageSize, s) && k < |s.mappings|
    requires forall x :: x in inputs ==> Placeable(s, k, x)
    ensures InputsFit(inputs, |s.user|, |s.ram|) && AllFit(s.mappings, |s.user|, |s.ram|)
  {
    WellFormedFits(pageSize, s);
    assert MappingOk(pageSize, s.mappings[k], |s.ram|);
    assert forall x :: x in inputs ==> SegmentOk(s.mappings[k], SegmentOf(x), |s.ram|);
  }

  lemma FirstThenRest(s: Shadow, middle: Shadow, after: Shadow, x: PageSegment, rest: seq<PageSegment>)
    requires InputsFit([x] + rest, |s.user|, |s.ram|)
    requires middle.ram == s.ram && middle.user == Splice(s.user, x.target, Image(s.ram, SegmentOf(x), x.executable))
    requires InputsFit(rest, |s.user|, |s.ram|) && WindowShows(middle, after, rest)
    requires forall y :: y in rest ==> !SegmentOf(x).Hits(y.target, y.target + y.length)
    ensures WindowShows(s, after, [x] + rest)
  {
    var image := Image(s.ram, SegmentOf(x), x.executable);
    var shown := after.user[x.target..x.target + x.length];
    forall i | 0 <= i < |shown|
      ensures shown[i] == image[i]
    {
      var a := x.target + i;
      forall y | y in rest
        ensures !SegmentOf(y).Hits(a, a + 1)
      {
        assert !SegmentOf(x).Hits(y.target, y.target + y.length);
      }
      assert after.user[a] == middle.user[a];
    }
    assert x in [x] + rest;
    forall a | 0 <= a < |after.user| && forall y :: y in [x] + rest ==> !SegmentOf(y).Hits(a, a + 1)
      ensures after.user[a] == s.user[a]
    {
      assert !SegmentOf(x).Hits(a, a + 1);
      assert forall y :: y in rest ==> y in [x] + rest;
    }
  }

  ghost predicate WindowPlaced(pageSize: nat, s: Shadow, r: Shadow, inputs: seq<PageSegment>)
    requires pageSize > 0 && InputsFit(inputs, |s.user|, |s.ram|)
  {
    Inv(pageSize, r) && Dirty(r.mappings) == Dirty(s.mappings) + SegmentsOf(inputs) && WindowShows(s, r, inputs)
  }

  /** Placing all the pages succeeds and shows each of them. */
  ghost predicate PlacesAll(pageSize: nat, s: Shadow, k: nat, inputs: seq<PageSegment>, nodes: nat)
    requires pageSize > 0 && k < |s.mappings| && InputsFit(inputs, |s.user|, |s.ram|)
    requires AllFit(s.mappings, |s.user|, |s.ram|)
  {
    PlaceAll(s, k, inputs, nodes).1 && WindowPlaced(pageSize, s, PlaceAll(s, k, inputs, nodes).0, inputs)
  }

  ghost predicate AllPlaceable(s: Shadow, k: nat, inputs: seq<PageSegment>)
    requires k < |s.mappings|
  {
    && s.mappings[k].protection.write && InputsApart(inputs, true)
    && forall x :: x in inputs ==> Placeable(s, k, x)
  }

  lemma PlaceAllNext(s: Shadow, k: nat, inputs: seq<PageSegment>, nodes: nat, added: Shadow)
    requires k < |s.mappings| && inputs != [] && nodes > 0 && InputsFit(inputs, |s.user|, |s.ram|)
    requires AllFit(s.mappings, |s.user|, |s.ram|)
    requires inputs[0] in inputs
    requires added == AddSegment(CopyIn(s, SegmentOf(inputs[0]), inputs[0].executable), k, SegmentOf(inputs[0]))
    requires k < |added.mappings| && InputsFit(inputs[1..], |added.user|, |added.ram|)
    requires AllFit(added.mappings, |added.user|, |added.ram|)
    ensures PlaceAll(s, k, inputs, nodes) == PlaceAll(added, k, inputs[1..], nodes - 1)
  {
    hide AllFit;
  }

  lemma PlaceAllNone(s: Shadow, k: nat, nodes: nat)
    requires k < |s.mappings| && AllFit(s.mappings, |s.user|, |s.ram|)
    ensures InputsFit([], |s.user|, |s.ram|) && PlaceAll(s, k, [], nodes) == (s, true)
  {
  }

  lemma {:induction false} PlaceAllExact(pageSize: nat, s: Shadow, k: nat, inputs: seq<PageSegment>, nodes: nat)
    requires pageSize > 0 && Inv(pageSize, s) && k < |s.mappings| && AllPlaceable(s, k, inputs) && |inputs| <= nodes
    ensures InputsFit(inputs, |s.user|, |s.ram|) && AllFit(s.mappings, |s.user|, |s.ram|)
    ensures PlacesAll(pageSize, s, k, inputs, nodes)
    decreases |inputs|
  {
    PlaceableFits(pageSize, s, k, inputs);
    hide AllPlaceable, Inv, AllFit, PlacesAll, FirstPlaced, InputsFit, AddSegment, CopyIn, Dirty;
    if inputs == [] {
      NothingPlaced(pageSize, s, k, nodes);
    } else {
      var added := PlaceFirstRaw(pageSize, s, k, inputs);
      PlaceAllExact(pageSize, added, k, inputs[1..], nodes - 1);
      PlacesAfterFirst(pageSize, s, k, inputs, nodes, added);
    }
  }

  lemma PlacesAfterFirst(pageSize: nat, s: Shadow, k: nat, inputs: seq<PageSegment>, nodes: nat, added: Shadow)
    requires pageSize > 0 && k < |s.mappings| && inputs != [] && nodes > 0 && InputsFit(inputs, |s.user|, |s.ram|)
    requires AllFit(s.mappings, |s.user|, |s.ram|)
    requires inputs[0] in inputs
    requires added == AddSegment(CopyIn(s, SegmentOf(inputs[0]), inputs[0].executable), k, SegmentOf(inputs[0]))
    requires k < |added.mappings| && InputsFit(inputs[1..], |added.user|, |added.ram|)
    requires AllFit(added.mappings, |added.user|, |added.ram|)
    requires FirstPlaced(s, added, inputs) && PlacesAll(pageSize, added, k, inputs[1..], nodes - 1)
    ensures PlacesAll(pageSize, s, k, inputs, nodes)
  {
    hide WindowPlaced, FirstPlaced, InputsFit, AllFit, PlaceAll, AddSegment, CopyIn;
    PlaceAllNext(s, k, inputs, nodes, added);
    PlacedThenRest(pageSize, s, added, PlaceAll(added, k, inputs[1..], nodes - 1).0, inputs);
  }

  lemma PlacedThenRest(pageSize: nat, s: Shadow, added: Shadow, r: Shadow, inputs: seq<PageSegment>)
    requires pageSize > 0 && inputs != [] && InputsFit(inputs, |s.user|, |s.ram|) && FirstPlaced(s, added, inputs)
    requires InputsFit(inputs[1..], |added.user|, |added.ram|) && WindowPlaced(pageSize, added, r, inputs[1..])
    ensures WindowPlaced(pageSize, s, r, inputs)
  {
    hide WindowShows, Inv, Dirty;
    var x, rest := inputs[0], inputs[1..];
    assert inputs == [x] + rest;
    FirstThenRest(s, added, r, x, rest);
    assert SegmentsOf([x] + rest) == {SegmentOf(x)} + SegmentsOf(rest);
  }

  lemma NothingPlaced(pageSize: nat, s: Shadow, k: nat, nodes: nat)
    requires pageSize > 0 && Inv(pageSize, s) && k < |s.mappings| && AllFit(s.mappings, |s.user|, |s.ram|)
    ensures InputsFit([], |s.user|, |s.ram|) && PlacesAll(pageSize, s, k, [], nodes)
  {
    hide AllFit, Inv;
    PlaceAllNone(s, k, nodes);
  }

  ghost predicate FirstPlaced(s: Shadow, added: Shadow, inputs: seq<PageSegment>)
    requires inputs != [] && InputsFit(inputs, |s.user|, |s.ram|)
  {
    var x := inputs[0];
    assert x in inputs;
    && Dirty(added.mappings) == Dirty(s.mappings) + {SegmentOf(x)}
    && added.ram == s.ram && added.user == Splice(s.user, x.target, Image(s.ram, SegmentOf(x), x.executable))
    && forall y :: y in inputs[1..] ==> !SegmentOf(x).Hits(y.target, y.target + y.length)
  }

  lemma PlaceFirstRaw(pageSize: nat, s: Shadow, k: nat, inputs: seq<PageSegment>) returns (added: Shadow)
    requires pageSize > 0 && Inv(pageSize, s) && k < |s.mappings| && inputs != [] && AllPlaceable(s, k, inputs)
    ensures inputs[0] in inputs && InputsFit(inputs, |s.user|, |s.ram|)
    ensures added == AddSegment(CopyIn(s, SegmentOf(inputs[0]), inputs[0].executable), k, SegmentOf(inputs[0]))
    ensures k < |added.mappings| && Inv(pageSize, added) && AllPlaceable(added, k, inputs[1..])
    ensures FirstPlaced(s, added, inputs)
  {
    PlaceableFits(pageSize, s, k, inputs);
    hide WellFormed, Unaliased, Dirty, Clear;
    var x, rest := inputs[0], inputs[1..];
    assert Placeable(s, k, x);
    PlaceRaw(pageSize, s, k, SegmentOf(x), x.executable);
    added := AddSegment(CopyIn(s, SegmentOf(x), x.executable), k, SegmentOf(x));
    forall y | y in rest
      ensures Placeable(added, k, y) && !SegmentOf(x).Hits(y.target, y.target + y.length)
    {
      var j :| 0 <= j < |rest| && rest[j] == y;
      assert inputs[j + 1] == y;
      StillPlaceable(pageSize, s, k, x, y);
    }
    assert forall j | 0 <= j < |rest| :: rest[j] == inputs[j + 1];
  }

  /** `MayRefresh` without its condition on executable pages of writable windows. */
  ghost predicate MayRefreshAny(pageSize: nat, s: Shadow, target: nat, length: nat, inputs: seq<PageSegment>) {
    && !BadRange(target, length) && pageSize <= target
    && inputs != [] && InputsReadable(inputs, |s.ram|)
    && InputsApart(inputs, true)
    && forall x :: x in inputs ==>
        InputOk(x, target, target + length) && SourceFree(s, target, target + length, SegmentOf(x))
  }

  ghost predicate AllOk(inputs: seq<PageSegment>, o: Outcomes) {
    o.allocate && o.mappingNode && o.unprotect && o.protect && |inputs| <= o.segmentNodes
  }

  /** What a refresh does to one logical byte: executable pages of a writable window are rewritten, the rest stays. */
  ghost predicate WindowEffect(s: Shadow, r: Shadow, inputs: seq<PageSegment>, p: nat)
    requires DirtyFits(s) && DirtyFits(r) && p < |s.ram| == |r.ram| && InputsReadable(inputs, |s.ram|)
  {
    && (forall x :: x in inputs && SegmentOf(x).Mirrors(p) ==>
          Logical(r)[p] == Shown(Logical(s)[x.source..x.source + x.length], x.executable)[p - x.source])
    && ((forall x :: x in inputs ==> !SegmentOf(x).Mirrors(p)) ==> Logical(r)[p] == Logical(s)[p])
  }

  lemma PlacedPage(pageSize: nat, s: Shadow, r: Shadow, inputs: seq<PageSegment>, x: PageSegment)
    requires pageSize > 0 && InputsFit(inputs, |s.user|, |s.ram|) && WindowPlaced(pageSize, s, r, inputs) && x in inputs
    ensures SegmentOf(x) in Dirty(r.mappings) && Unaliased(Dirty(r.mappings)) && |r.user| == |s.user|
    ensures |r.ram| == |s.ram|
    ensures r.user[x.target..x.target + x.length] == Image(s.ram, SegmentOf(x), x.executable)
  {
  }

  lemma ShownAt(r: Shadow, g: Segment, image: seq<Byte>, p: nat)
    requires DirtyFits(r) && p < |r.ram| && g in Dirty(r.mappings) && Unaliased(Dirty(r.mappings)) && g.Mirrors(p)
    requires r.user[g.target..g.target + g.length] == image
    ensures Logical(r)[p] == image[p - g.source]
  {
    LogicalAt(r.user, r.ram, Dirty(r.mappings), g, p);
    SliceIndex(r.user, g.target, g.length, p - g.source);
  }

  lemma SliceIndex(s: seq<Byte>, at: nat, n: nat, i: nat)
    requires at + n <= |s| && i < n
    ensures s[at..at + n][i] == s[at + i]
  {
  }

  lemma OthersStay(pageSize: nat, s: Shadow, r: Shadow, inputs: seq<PageSegment>, p: nat)
    requires pageSize > 0 && Inv(pageSize, s) && DirtyFits(s) && DirtyFits(r) && p < |s.ram|
    requires InputsFit(inputs, |s.user|, |s.ram|) && WindowPlaced(pageSize, s, r, inputs)
    requires forall x, h :: x in inputs && h in Dirty(s.mappings) ==> !SegmentOf(x).Hits(h.target, h.target + h.length)
    requires forall x :: x in inputs ==> !SegmentOf(x).Mirrors(p)
    ensures Logical(r)[p] == Logical(s)[p]
  {
    if h :| h in Dirty(s.mappings) && h.Mirrors(p) {
      LogicalAt(s.user, s.ram, Dirty(s.mappings), h, p);
      LogicalAt(r.user, r.ram, Dirty(r.mappings), h, p);
      var a := h.TargetOf(p);
      forall x | x in inputs
        ensures !SegmentOf(x).Hits(a, a + 1)
      {
        assert !SegmentOf(x).Hits(h.target, h.target + h.length);
      }
    } else {
      LogicalElsewhere(s.user, s.ram, Dirty(s.mappings), p);
      LogicalElsewhere(r.user, r.ram, Dirty(r.mappings), p);
    }
  }

  /** Filling mapping `k` with a writable window. */
  lemma FillWindowExact(pageSize: nat, s: Shadow, k: nat, target: nat, length: nat, inputs: seq<PageSegment>,
                        nodes: nat)
    requires pageSize > 0 && Inv(pageSize, s) && DirtyFits(s) && AllFit(s.mappings, |s.user|, |s.ram|)
    requires k < |s.mappings| && s.mappings[k].Contains(target, target + length) && s.mappings[k].protection.write
    requires MayRefreshAny(pageSize, s, target, length, inputs) && |inputs| <= nodes
    ensures InputsFit(inputs, |s.user|, |s.ram|)
    ensures var (r, ok) := PlaceAll(RemoveSegments(s, k, target, target + length, true), k, inputs, nodes);
            && ok && Inv(pageSize, r) && DirtyFits(r) && |r.ram| == |s.ram|
            && forall p :: 0 <= p < |s.ram| ==> WindowEffect(s, r, inputs, p)
  {
    RemoveKeeps(pageSize, s, k, target, target + length);
    var removed := RemoveSegments(s, k, target, target + length, true);
    forall x | x in inputs
      ensures PlacedFrom(s, removed, k, x)
    {
      PlaceableAfterRemove(pageSize, s, k, target, length, inputs, x);
    }
    hide RemoveSegments, Inv, Clear, Placeable, Dirty;
    PlaceAllExact(pageSize, removed, k, inputs, nodes);
    var r := PlaceAll(removed, k, inputs, nodes).0;
    DirtyBounds(pageSize, r);
    hide PlaceAll;
    EffectFollows(pageSize, s, removed, k, r, inputs);
  }

  /** A page to be placed shows logical bytes, and dirty segments are elsewhere on both sides. */
  ghost predicate PlacedFrom(s: Shadow, removed: Shadow, k: nat, x: PageSegment)
    requires DirtyFits(s) && |removed.ram| == |s.ram| && k < |removed.mappings|
  {
    && Placeable(removed, k, x) && x.source + x.length <= |s.ram|
    && Logical(s)[x.source..x.source + x.length] == removed.ram[x.source..x.source + x.length]
    && forall h :: h in Dirty(removed.mappings) ==> !SegmentOf(x).Hits(h.target, h.target + h.length)
  }

  /** The two halves of `WindowEffect` at one page and at a byte no page shows. */
  lemma EffectInPage(pageSize: nat, s: Shadow, removed: Shadow, k: nat, r: Shadow, inputs: seq<PageSegment>,
                     x: PageSegment, p: nat)
    requires pageSize > 0 && DirtyFits(s) && DirtyFits(r) && |removed.ram| == |s.ram| == |r.ram|
    requires k < |removed.mappings|
    requires InputsFit(inputs, |removed.user|, |removed.ram|) && WindowPlaced(pageSize, removed, r, inputs)
    requires x in inputs && PlacedFrom(s, removed, k, x) && p < |s.ram| && SegmentOf(x).Mirrors(p)
    ensures Logical(r)[p] == Shown(Logical(s)[x.source..x.source + x.length], x.executable)[p - x.source]
  {
    hide Logical, WellFormed, Placeable, Clear, WindowPlaced, Dirty, Unaliased, Translate, DirtyFits;
    PlacedPage(pageSize, removed, r, inputs, x);
    var g := SegmentOf(x);
    var image := Image(removed.ram, g, x.executable);
    assert image == Shown(Logical(s)[x.source..x.source + x.length], x.executable);
    hide PlacedFrom, Image, Shown;
    ShownAt(r, g, image, p);
  }

  lemma EffectFollows(pageSize: nat, s: Shadow, removed: Shadow, k: nat, r: Shadow, inputs: seq<PageSegment>)
    requires pageSize > 0 && DirtyFits(s) && DirtyFits(r) && Keeps(pageSize, s, removed) && |r.ram| == |s.ram|
    requires InputsReadable(inputs, |s.ram|) && k < |removed.mappings|
    requires InputsFit(inputs, |removed.user|, |removed.ram|) && WindowPlaced(pageSize, removed, r, inputs)
    requires forall x :: x in inputs ==> PlacedFrom(s, removed, k, x)
    ensures forall p :: 0 <= p < |s.ram| ==> WindowEffect(s, r, inputs, p)
  {
    hide Logical, WindowPlaced, WellFormed, Placeable, Clear, Dirty, Image, Shown, Unaliased;
    forall p | 0 <= p < |s.ram|
      ensures WindowEffect(s, r, inputs, p)
    {
      forall x | x in inputs && SegmentOf(x).Mirrors(p)
        ensures Logical(r)[p] == Shown(Logical(s)[x.source..x.source + x.length], x.executable)[p - x.source]
      {
        EffectInPage(pageSize, s, removed, k, r, inputs, x, p);
      }
      if forall x :: x in inputs ==> !SegmentOf(x).Mirrors(p) {
        forall x, h | x in inputs && h in Dirty(removed.mappings)
          ensures !SegmentOf(x).Hits(h.target, h.target + h.length)
        {
          assert PlacedFrom(s, removed, k, x);
        }
        OthersStay(pageSize, removed, r, inputs, p);
      }
    }
  }

  lemma PlaceableAfterRemove(pageSize: nat, s: Shadow, k: nat, target: nat, length: nat, inputs: seq<PageSegment>,
                             x: PageSegment)
    requires pageSize > 0 && Inv(pageSize, s) && DirtyFits(s) && AllFit(s.mappings, |s.user|, |s.ram|)
    requires k < |s.mappings| && s.mappings[k].Contains(target, target + length) && s.mappings[k].protection.write
    requires MayRefreshAny(pageSize, s, target, length, inputs) && x in inputs
    ensures PlacedFrom(s, RemoveSegments(s, k, target, target + length, true), k, x)
  {
    hide RemoveSegments, Logical, WellFormed, Unaliased, Clear, AllFit, Dirty;
    RemoveKeeps(pageSize, s, k, target, target + length);
    var removed := RemoveSegments(s, k, target, target + length, true);
    ClearPart(removed, target, target + length, x.target, x.target + x.length);
    forall h | h in Dirty(removed.mappings)
      ensures h.SourceApart(SegmentOf(x)) && !SegmentOf(x).Hits(h.target, h.target + h.length)
    {
      assert h in Dirty(s.mappings) && !h.Hits(target, target + length);
    }
    SourceIsLogical(removed, SegmentOf(x));
  }

  /** A mapping is found or created when the host pages of the range exist and nothing fails. */
  lemma FindSucceeds(pageSize: nat, s: Shadow, target: nat, length: nat, protection: Protection, o: Outcomes)
    requires IsPageSize(pageSize) && |s.user| == ADDRESS_SPACE && AllFit(s.mappings, |s.user|, |s.ram|)
    requires pageSize <= target && !BadRange(target, length) && PageEnd(pageSize, target, length) != 0
    requires o.allocate && o.mappingNode
    ensures FindOrCreate(pageSize, s, target, length, protection, o).1.Some?
  {
    PageBounds(pageSize, target, length);
    hide PageEnd, PageStart, AllFit, UnmapRange;
  }

  lemma RefreshIsFill(pageSize: nat, s: Shadow, target: nat, length: nat, inputs: seq<PageSegment>, o: Outcomes)
    requires pageSize > 0 && |s.user| == ADDRESS_SPACE && AllFit(s.mappings, |s.user|, |s.ram|)
    requires InputsReadable(inputs, |s.ram|) && !BadRange(target, length) && inputs != [] && o.unprotect
    requires forall x :: x in inputs ==> InputOk(x, target, target + length)
    ensures InputsFit(inputs, |s.user|, |s.ram|)
    ensures var (found, at) := FindOrCreate(pageSize, s, target, length, WindowProtection(inputs), o);
            RefreshWindow(pageSize, s, target, length, inputs, o)
            == if at.None? then (found, false) else FillWindow(pageSize, found, at.value, target, length, inputs, o)
  {
    hide FindOrCreate, FillWindow, AllFit, WindowProtection;
  }

  lemma FillIsPlacing(pageSize: nat, s: Shadow, k: nat, target: nat, length: nat, inputs: seq<PageSegment>, o: Outcomes)
    requires pageSize > 0 && k < |s.mappings| && AllFit(s.mappings, |s.user|, |s.ram|)
    requires InputsFit(inputs, |s.user|, |s.ram|) && o.protect
    requires var removed := RemoveSegments(s, k, target, target + length, true);
             AllFit(removed.mappings, |removed.user|, |removed.ram|) && PlaceAll(removed, k, inputs, o.segmentNodes).1
    ensures FillWindow(pageSize, s, k, target, length, inputs, o)
         == (PlaceAll(RemoveSegments(s, k, target, target + length, true), k, inputs, o.segmentNodes).0, true)
  {
    hide AllFit, InputsFit, PlaceAll, RemoveSegments, UnmapRange;
  }

  lemma EffectFrom(pageSize: nat, s: Shadow, found: Shadow, r: Shadow, inputs: seq<PageSegment>)
    requires pageSize > 0 && Keeps(pageSize, s, found) && DirtyFits(r) && |r.ram| == |s.ram|
    requires InputsReadable(inputs, |s.ram|) && forall p :: 0 <= p < |s.ram| ==> WindowEffect(found, r, inputs, p)
    ensures forall p :: 0 <= p < |s.ram| ==> WindowEffect(s, r, inputs, p)
  {
    hide Logical, Inv, Dirty;
    forall p | 0 <= p < |s.ram|
      ensures WindowEffect(s, r, inputs, p)
    {
      assert WindowEffect(found, r, inputs, p);
    }
  }

  lemma RefreshStill(pageSize: nat, s: Shadow, found: Shadow, target: nat, length: nat, inputs: seq<PageSegment>)
    requires pageSize > 0 && Keeps(pageSize, s, found) && MayRefreshAny(pageSize, s, target, length, inputs)
    ensures MayRefreshAny(pageSize, found, target, length, inputs)
  {
    hide Logical, Inv, Dirty;
  }

  lemma RefreshWindowEffect(pageSize: nat, s: Shadow, target: nat, length: nat, inputs: seq<PageSegment>, o: Outcomes)
    requires IsPageSize(pageSize) && Inv(pageSize, s) && DirtyFits(s)
    requires MayRefreshAny(pageSize, s, target, length, inputs) && WindowProtection(inputs).write && AllOk(inputs, o)
    ensures AllFit(s.mappings, |s.user|, |s.ram|)
    ensures var (r, ok) := RefreshWindow(pageSize, s, target, length, inputs, o);
            && (PageEnd(pageSize, target, length) != 0 ==> ok)
            && (ok ==> Inv(pageSize, r) && DirtyFits(r) && |r.ram| == |s.ram|)
            && (ok ==> forall p :: 0 <= p < |s.ram| ==> WindowEffect(s, r, inputs, p))
  {
    WellFormedFits(pageSize, s);
    RefreshIsFill(pageSize, s, target, length, inputs, o);
    hide PageEnd, FindOrCreate, Inv, WellFormed, AllFit, Logical, InputsApart, Dirty, WindowEffect, DirtyFits;
    hide RefreshWindow, FillWindow, RemoveSegments, PlaceAll, InputsFit;
    if PageEnd(pageSize, target, length) != 0 {
      FindSucceeds(pageSize, s, target, length, WindowProtection(inputs), o);
    }
    FindKeeps(pageSize, s, target, length, WindowProtection(inputs), o);
    var (found, at) := FindOrCreate(pageSize, s, target, length, WindowProtection(inputs), o);
    if at.Some? {
      var k := at.value;
      RefreshStill(pageSize, s, found, target, length, inputs);
      FillWindowExact(pageSize, found, k, target, length, inputs, o.segmentNodes);
      FillIsPlacing(pageSize, found, k, target, length, inputs, o);
      EffectFrom(pageSize, s, found,
                 PlaceAll(RemoveSegments(found, k, target, target + length, true), k, inputs, o.segmentNodes).0,
                 inputs);
    }
  }

  /** The rewriting reaches Linux memory exactly when a writable window holds a page with a rewritten instruction. */
  lemma RefreshWindowPreservesExactly(pageSize: nat, s: Shadow, target: nat, length: nat, inputs: seq<PageSegment>,
                                      o: Outcomes)
    requires IsPageSize(pageSize) && Inv(pageSize, s) && DirtyFits(s)
    requires MayRefreshAny(pageSize, s, target, length, inputs) && AllOk(inputs, o)
    ensures AllFit(s.mappings, |s.user|, |s.ram|)
    ensures var (r, ok) := RefreshWindow(pageSize, s, target, length, inputs, o);
            ok ==> DirtyFits(r) && (Logical(r) == Logical(s) <==>
              (WindowProtection(inputs).write ==>
                 forall x :: x in inputs && x.executable ==>
                   Untranslatable(Logical(s)[x.source..x.source + x.length])))
  {
    WellFormedFits(pageSize, s);
    if WindowProtection(inputs).write {
      RefreshWindowEffect(pageSize, s, target, length, inputs, o);
      var (r, ok) := RefreshWindow(pageSize, s, target, length, inputs, o);
      hide Logical, RefreshWindow;
      if ok {
        EffectPreservesExactly(s, r, inputs);
      }
    } else {
      RefreshWindowKeeps(pageSize, s, target, length, inputs, o);
    }
  }

  ghost predicate PageKept(s: Shadow, r: Shadow, x: PageSegment)
    requires DirtyFits(s) && DirtyFits(r) && |r.ram| == |s.ram| && x.source + x.length <= |s.ram|
  {
    forall p :: x.source <= p < x.source + x.length ==> Logical(r)[p] == Logical(s)[p]
  }

  lemma EffectPreservesExactly(s: Shadow, r: Shadow, inputs: seq<PageSegment>)
    requires DirtyFits(s) && DirtyFits(r) && |r.ram| == |s.ram| && InputsReadable(inputs, |s.ram|)
    requires forall p :: 0 <= p < |s.ram| ==> WindowEffect(s, r, inputs, p)
    ensures Logical(r) == Logical(s) <==>
              forall x :: x in inputs && x.executable ==> Untranslatable(Logical(s)[x.source..x.source + x.length])
  {
    hide Logical, Translate, Untranslatable;
    forall x | x in inputs && x.executable
      ensures Untranslatable(Logical(s)[x.source..x.source + x.length]) <==> PageKept(s, r, x)
    {
      PagePreservedExactly(s, r, inputs, x);
    }
    if forall x :: x in inputs && x.executable ==> Untranslatable(Logical(s)[x.source..x.source + x.length]) {
      forall p | 0 <= p < |s.ram|
        ensures Logical(r)[p] == Logical(s)[p]
      {
        assert WindowEffect(s, r, inputs, p);
        if x :| x in inputs && SegmentOf(x).Mirrors(p) {
          assert x.executable ==> PageKept(s, r, x);
        }
      }
    }
  }

  lemma PagePreservedExactly(s: Shadow, r: Shadow, inputs: seq<PageSegment>, x: PageSegment)
    requires DirtyFits(s) && DirtyFits(r) && |r.ram| == |s.ram| && InputsReadable(inputs, |s.ram|)
    requires forall p :: 0 <= p < |s.ram| ==> WindowEffect(s, r, inputs, p)
    requires x in inputs && x.executable
    ensures Untranslatable(Logical(s)[x.source..x.source + x.length]) <==> PageKept(s, r, x)
  {
    hide Logical, Translate, Untranslatable;
    var page := Logical(s)[x.source..x.source + x.length];
    var shown := Translate(page);
    TranslateFixesExactly(page);
    forall p | x.source <= p < x.source + x.length
      ensures Logical(r)[p] == shown[p - x.source] && Logical(s)[p] == page[p - x.source]
    {
      assert SegmentOf(x).Mirrors(p);
      assert WindowEffect(s, r, inputs, p);
    }
    if PageKept(s, r, x) {
      forall i | 0 <= i < |page|
        ensures shown[i] == page[i]
      {
        assert Logical(r)[x.source + i] == Logical(s)[x.source + i];
      }
    }
  }

  /** A window of one host page whose first Linux page is data and whose second is code. */
  function SharedWindow(): (r: seq<PageSegment>)
    ensures |r| == 2 && r[0] in r && r[1] in r
  {
    [PageSegment(32768, 4096, 4096, true, false), PageSegment(36864, 8192, 4096, false, true)]
  }

  lemma SharedWindowAllowed(s: Shadow)
    requires s.mappings == [] && |s.ram| == 16384
    ensures MayRefreshAny(16384, s, 32768, 16384, SharedWindow()) && WindowProtection(SharedWindow()).write
  {
    assert Dirty(s.mappings) == {};
    assert SharedWindow()[0].writable;
  }

  lemma SharedPage(s: Shadow)
    requires s.mappings == [] && |s.ram| == 16384 && DirtyFits(s)
    requires s.ram[8192..8196] == [0x01, 0x00, 0x00, 0xd4]
    ensures !Untranslatable(Logical(s)[8192..8192 + 4096])
  {
    assert Dirty(s.mappings) == {};
    assert Logical(s) == s.ram;
    hide Logical;
    var page := Logical(s)[8192..8192 + 4096];
    assert page[4 * 0..4 * 0 + 4] == s.ram[8192..8196];
    RewriteIsTranslateWord(page[4 * 0..4 * 0 + 4]);
    assert Translatable(WordOf(page[4 * 0..4 * 0 + 4]));
  }

  /** Concrete failure: refreshing such a window rewrites the code page in Linux memory. */
  lemma SharedWindowRewritesCode(s: Shadow, o: Outcomes)
    requires |s.user| == ADDRESS_SPACE && s.mappings == [] && |s.ram| == 16384
    requires s.ram[8192..8196] == [0x01, 0x00, 0x00, 0xd4]
    requires AllOk(SharedWindow(), o)
    ensures InputsReadable(SharedWindow(), |s.ram|)
    ensures var (r, ok) := RefreshWindow(16384, s, 32768, 16384, SharedWindow(), o);
            ok && DirtyFits(r) && DirtyFits(s) && Logical(r) != Logical(s)
  {
    var inputs := SharedWindow();
    SharedWindowAllowed(s);
    SharedPage(s);
    assert PageEnd(16384, 32768, 16384) != 0;
    assert inputs[1].executable && inputs[1] in inputs && inputs[1].source == 8192 && inputs[1].length == 4096;
    assert Inv(16384, s);
    hide RefreshWindow, Logical, Untranslatable, MayRefreshAny, SharedWindow, PageEnd;
    RefreshWindowEffect(16384, s, 32768, 16384, inputs, o);
    RefreshWindowPreservesExactly(16384, s, 32768, 16384, inputs, o);
  }

  // ---------------------------------------------------------------- the first host page

  /**
   A range inside the first host page rounds down to address 0, which the unmap step takes for NULL.
   Creation then leaves what is mapped there in place, so mappings that were disjoint stay so exactly
   when nothing was. Earlier mappings may themselves be in the first host page.
   */
  lemma FirstPageExactly(pageSize: nat, s: Shadow, target: nat, length: nat, protection: Protection, o: Outcomes)
    requires IsPageSize(pageSize) && |s.user| == ADDRESS_SPACE && AllFit(s.mappings, |s.user|, |s.ram|)
    requires Apart(s.mappings) && 0 < target < pageSize && o.allocate && o.mappingNode
    ensures var (r, ok) := CreateMapping(pageSize, s, target, length, protection, o);
            ok ==> (Apart(r.mappings) <==>
                      forall m :: m in s.mappings ==> !m.Hits(0, PageEnd(pageSize, target, length)))
  {
    ModUnique(pageSize, 0, target);
    var (r, ok) := CreateMapping(pageSize, s, target, length, protection, o);
    if ok {
      var end := PageEnd(pageSize, target, length);
      assert r.mappings == [Mapping(0, end, protection, [])] + s.mappings;
      FirstApart(r.mappings[0], s.mappings);
    }
  }

  lemma FirstApart(m: Mapping, rest: seq<Mapping>)
    requires Apart(rest)
    ensures Apart([m] + rest) <==> forall n :: n in rest ==> !n.Hits(m.target, m.target + m.length)
  {
    var all := [m] + rest;
    if Apart(all) {
      forall n | n in rest
        ensures !n.Hits(m.target, m.target + m.length)
      {
        var j :| 0 <= j < |rest| && rest[j] == n;
        assert !all[0].Hits(all[j + 1].target, all[j + 1].target + all[j + 1].length);
      }
    }
    if forall n :: n in rest ==> !n.Hits(m.target, m.target + m.length) {
      forall i, j | 0 <= i < j < |all|
        ensures !all[i].Hits(all[j].target, all[j].target + all[j].length)
      {
        if i == 0 {
          assert all[j] in rest && !all[j].Hits(m.target, m.target + m.length);
        } else {
          assert all[i] == rest[i - 1] && all[j] == rest[j - 1];
        }
      }
    }
  }

  /** Mapping a page inside the first host page when every mapping there has another protection. */
  lemma FirstPageMap(s: Shadow, g: Segment, protection: Protection, o: Outcomes)
    requires |s.user| == ADDRESS_SPACE && AllFit(s.mappings, |s.user|, |s.ram|)
    requires g == Segment(4096, 4096, 4096) && |s.ram| == 8192 && !protection.execute
    requires forall m :: m in s.mappings ==> m.protection != protection
    requires o == Outcomes(true, true, true, 1, true)
    ensures MapPage(16384, s, g, protection, o).1
    ensures MapPage(16384, s, g, protection, o).0.mappings == [Mapping(0, 16384, protection, [g])] + s.mappings
    ensures |MapPage(16384, s, g, protection, o).0.user| == ADDRESS_SPACE
    ensures |MapPage(16384, s, g, protection, o).0.ram| == 8192
  {
    hide AllFit, CreateMapping, FillPage, Image;
    assert !Matches(s.mappings, g, protection);
    hide Matches;
    FirstPageFound(s, protection, o);
    hide FindOrCreate;
    FirstPageFill(s, FindOrCreate(16384, s, 4096, 4096, protection, o).0, g, protection, o);
  }

  lemma FirstPageFound(s: Shadow, protection: Protection, o: Outcomes)
    requires |s.user| == ADDRESS_SPACE && AllFit(s.mappings, |s.user|, |s.ram|)
    requires forall m :: m in s.mappings ==> m.protection != protection
    requires o == Outcomes(true, true, true, 1, true)
    ensures FindOrCreate(16384, s, 4096, 4096, protection, o).1 == Some(0)
    ensures FindOrCreate(16384, s, 4096, 4096, protection, o).0.mappings
          == [Mapping(0, 16384, protection, [])] + s.mappings
  {
    hide AllFit, CreateMapping, FindOrCreate, FindMapping;
    FirstPageCreate(s, protection, o);
    NothingFound(s.mappings, 4096, 8192, protection);
    CreateWhenNoneFound(16384, s, 4096, 4096, protection, o);
  }

  lemma NothingFound(ms: seq<Mapping>, lo: nat, hi: nat, protection: Protection)
    requires forall m :: m in ms ==> m.protection != protection
    ensures FindMapping(ms, lo, hi, protection) == None
  {
  }

  lemma CreateWhenNoneFound(pageSize: nat, s: Shadow, target: nat, length: nat, protection: Protection, o: Outcomes)
    requires pageSize > 0 && |s.user| == ADDRESS_SPACE && AllFit(s.mappings, |s.user|, |s.ram|)
    requires FindMapping(s.mappings, target, target + length, protection) == None
    ensures FindOrCreate(pageSize, s, target, length, protection, o).0
          == CreateMapping(pageSize, s, target, length, protection, o).0
    ensures FindOrCreate(pageSize, s, target, length, protection, o).1.Some?
          == CreateMapping(pageSize, s, target, length, protection, o).1
    ensures CreateMapping(pageSize, s, target, length, protection, o).1 ==>
              FindOrCreate(pageSize, s, target, length, protection, o).1 == Some(0)
  {
    hide CreateMapping, FindMapping, AllFit;
  }

  lemma FirstPageCreate(s: Shadow, protection: Protection, o: Outcomes)
    requires |s.user| == ADDRESS_SPACE && AllFit(s.mappings, |s.user|, |s.ram|)
    requires o == Outcomes(true, true, true, 1, true)
    ensures var (r, ok) := CreateMapping(16384, s, 4096, 4096, protection, o);
            ok && r.mappings == [Mapping(0, 16384, protection, [])] + s.mappings
  {
    assert PageStart(16384, 4096) == 0 && PageEnd(16384, 4096, 4096) == 16384;
    hide PageStart, PageEnd, FlushHit, MappingsMissed;
    assert UnmapRange(16384, s, 0, 16384) == s;
  }

  lemma FirstPageFill(s: Shadow, created: Shadow, g: Segment, protection: Protection, o: Outcomes)
    requires |created.user| == ADDRESS_SPACE && |created.ram| == 8192
    requires AllFit(created.mappings, |created.user|, |created.ram|)
    requires g == Segment(4096, 4096, 4096) && o == Outcomes(true, true, true, 1, true)
    requires created.mappings == [Mapping(0, 16384, protection, [])] + s.mappings
    ensures var (r, ok) := FillPage(created, 0, g, false, true, o);
            ok && r.mappings == [Mapping(0, 16384, protection, [g])] + s.mappings && |r.user| == ADDRESS_SPACE
            && |r.ram| == 8192
  {
    var removed := RemoveSegments(created, 0, g.target, g.target + g.length, true);
    assert removed.mappings == created.mappings;
    var copied := CopyIn(removed, g, false);
    var m := copied.mappings[0];
    assert m == Mapping(0, 16384, protection, []) && [g] + m.segments == [g];
    assert AddSegment(copied, 0, g).mappings[0] == Mapping(0, 16384, protection, [g]);
    assert AddSegment(copied, 0, g).mappings == [Mapping(0, 16384, protection, [g])] + s.mappings;
  }

  /** Concrete failure: mapping one page below 16 KiB read-only and then writable leaves two mappings over it. */
  lemma FirstPageOverlap(s: Shadow, o: Outcomes)
    requires |s.user| == ADDRESS_SPACE && s.mappings == [] && |s.ram| == 8192
    requires o == Outcomes(true, true, true, 1, true)
    ensures var g := Segment(4096, 4096, 4096);
            var (first, ok1) := MapPage(16384, s, g, Protection(false, false), o);
            && ok1 && AllFit(first.mappings, |first.user|, |first.ram|)
            && |first.user| == ADDRESS_SPACE && |first.ram| == 8192
            && var (second, ok2) := MapPage(16384, first, g, Protection(true, false), o);
            ok2 && !Apart(second.mappings)
  {
    hide MapPage, Apart;
    var g, ro, rw := Segment(4096, 4096, 4096), Protection(false, false), Protection(true, false);
    FirstPageMap(s, g, ro, o);
    var first := MapPage(16384, s, g, ro, o).0;
    assert first.mappings == [Mapping(0, 16384, ro, [g])];
    FirstPageMap(first, g, rw, o);
    SameRangeTwice(Mapping(0, 16384, rw, [g]), Mapping(0, 16384, ro, [g]));
  }

  lemma SameRangeTwice(m: Mapping, n: Mapping)
    requires m.target == n.target && m.length == n.length > 0
    ensures !Apart([m] + [n])
  {
    var ms := [m] + [n];
    assert ms[0].Hits(ms[1].target, ms[1].target + ms[1].length);
  }
}
