/**
 What the user shadow does to Linux memory outside the runs that keep it: pages with instructions to
 rewrite under a writable mapping, whatever the host answers, and writable segments with a common source.
 */
module ShadowEffects {
  import opened HostTypes
  import opened Slices
  import opened Translation
  import opened ShadowModel
  import opened ShadowShape
  import opened ShadowProofs
  import opened ShadowTheorems

  // ---------------------------------------------------------------- placing part of a window

  /** The pages whose list node could be allocated. */
  function Linked(inputs: seq<PageSegment>, nodes: nat): (r: seq<PageSegment>)
    ensures r <= inputs
  {
    if nodes < |inputs| then inputs[..nodes] else inputs
  }

  lemma LinkedFits(inputs: seq<PageSegment>, nodes: nat, userSize: nat, ramSize: nat)
    requires InputsFit(inputs, userSize, ramSize)
    ensures InputsFit(Linked(inputs, nodes), userSize, ramSize)
  {
  }

  lemma LinkedPlaceable(s: Shadow, k: nat, inputs: seq<PageSegment>, nodes: nat)
    requires k < |s.mappings| && AllPlaceable(s, k, inputs)
    ensures AllPlaceable(s, k, Linked(inputs, nodes))
  {
    hide Placeable;
  }

  /** The first page without a node is copied in, over addresses no segment shows, and is not linked. */
  ghost predicate StopsAt(s: Shadow, k: nat, inputs: seq<PageSegment>, nodes: nat)
    requires k < |s.mappings| && nodes < |inputs| && AllFit(s.mappings, |s.user|, |s.ram|)
    requires InputsFit(inputs, |s.user|, |s.ram|)
  {
    LinkedFits(inputs, nodes, |s.user|, |s.ram|);
    var x, linked := inputs[nodes], PlaceAll(s, k, Linked(inputs, nodes), nodes).0;
    && x in inputs && Clear(linked, x.target, x.target + x.length)
    && PlaceAll(s, k, inputs, nodes).0 == CopyIn(linked, SegmentOf(x), x.executable)
  }

  lemma InvMeans(pageSize: nat, s: Shadow)
    requires pageSize > 0 && Inv(pageSize, s)
    ensures WellFormed(pageSize, s)
  {
  }

  lemma AllPlaceableFits(pageSize: nat, s: Shadow, k: nat, inputs: seq<PageSegment>)
    requires pageSize > 0 && WellFormed(pageSize, s) && k < |s.mappings| && AllPlaceable(s, k, inputs)
    ensures InputsFit(inputs, |s.user|, |s.ram|) && AllFit(s.mappings, |s.user|, |s.ram|)
  {
    PlaceableFits(pageSize, s, k, inputs);
  }

  lemma {:induction false} PlaceAllStops(pageSize: nat, s: Shadow, k: nat, inputs: seq<PageSegment>, nodes: nat)
    requires pageSize > 0 && Inv(pageSize, s) && k < |s.mappings| && AllPlaceable(s, k, inputs) && nodes < |inputs|
    ensures InputsFit(inputs, |s.user|, |s.ram|) && AllFit(s.mappings, |s.user|, |s.ram|)
    ensures StopsAt(s, k, inputs, nodes)
    decreases |inputs|
  {
    hide AllPlaceable, Inv, AllFit, FirstPlaced, InputsFit, AddSegment, CopyIn, StopsAt, PlaceAll, WellFormed;
    InvMeans(pageSize, s);
    AllPlaceableFits(pageSize, s, k, inputs);
    if nodes == 0 {
      StopsFirst(s, k, inputs);
    } else {
      var added := PlaceFirstRaw(pageSize, s, k, inputs);
      PlaceAllStops(pageSize, added, k, inputs[1..], nodes - 1);
      StopsLater(s, k, inputs, nodes, added);
    }
  }

  lemma StopsFirst(s: Shadow, k: nat, inputs: seq<PageSegment>)
    requires k < |s.mappings| && inputs != [] && AllPlaceable(s, k, inputs)
    requires AllFit(s.mappings, |s.user|, |s.ram|) && InputsFit(inputs, |s.user|, |s.ram|)
    ensures StopsAt(s, k, inputs, 0)
  {
    assert inputs[0] in inputs && Placeable(s, k, inputs[0]);
    PlaceAllNone(s, k, 0);
    hide AllFit, InputsFit, AllPlaceable;
  }

  lemma StopsLater(s: Shadow, k: nat, inputs: seq<PageSegment>, nodes: nat, added: Shadow)
    requires k < |s.mappings| && 0 < nodes < |inputs| && AllFit(s.mappings, |s.user|, |s.ram|)
    requires InputsFit(inputs, |s.user|, |s.ram|)
    requires inputs[0] in inputs
    requires added == AddSegment(CopyIn(s, SegmentOf(inputs[0]), inputs[0].executable), k, SegmentOf(inputs[0]))
    requires k < |added.mappings| && AllFit(added.mappings, |added.user|, |added.ram|)
    requires InputsFit(inputs[1..], |added.user|, |added.ram|)
    requires StopsAt(added, k, inputs[1..], nodes - 1)
    ensures StopsAt(s, k, inputs, nodes)
  {
    hide AllFit, AddSegment, CopyIn, PlaceAll, Clear;
    LinkedFits(inputs, nodes, |s.user|, |s.ram|);
    var linked := Linked(inputs, nodes);
    assert linked[1..] == Linked(inputs[1..], nodes - 1) && linked[0] == inputs[0] && linked[0] in linked;
    PlaceAllNext(s, k, inputs, nodes, added);
    LinkedFits(inputs[1..], nodes - 1, |added.user|, |added.ram|);
    PlaceAllNext(s, k, linked, nodes, added);
  }

  /** The logical memory after the loop over a writable window, all of it or part of it placed. */
  ghost predicate WindowOutcome(pageSize: nat, s: Shadow, r: Shadow, reached: seq<PageSegment>)
    requires pageSize > 0 && DirtyFits(s) && InputsReadable(reached, |s.ram|)
  {
    && Inv(pageSize, r) && DirtyFits(r) && |r.ram| == |s.ram|
    && forall p :: 0 <= p < |s.ram| ==> WindowEffect(s, r, reached, p)
  }

  lemma OutcomeKept(pageSize: nat, s: Shadow, r: Shadow, q: Shadow, reached: seq<PageSegment>)
    requires pageSize > 0 && DirtyFits(s) && InputsReadable(reached, |s.ram|)
    requires WindowOutcome(pageSize, s, r, reached) && Preserves(pageSize, r, q)
    ensures WindowOutcome(pageSize, s, q, reached)
  {
    hide Logical, Inv;
    forall p | 0 <= p < |s.ram|
      ensures WindowEffect(s, q, reached, p)
    {
      assert WindowEffect(s, r, reached, p);
    }
  }

  lemma OutcomeFrom(pageSize: nat, s: Shadow, f: Shadow, r: Shadow, reached: seq<PageSegment>)
    requires pageSize > 0 && DirtyFits(f) && InputsReadable(reached, |s.ram|)
    requires Preserves(pageSize, s, f) && WindowOutcome(pageSize, f, r, reached)
    ensures WindowOutcome(pageSize, s, r, reached)
  {
    hide Logical, Inv;
    forall p | 0 <= p < |s.ram|
      ensures WindowEffect(s, r, reached, p)
    {
      assert WindowEffect(f, r, reached, p);
    }
  }

  lemma NothingReached(pageSize: nat, s: Shadow, r: Shadow)
    requires pageSize > 0 && DirtyFits(s) && Preserves(pageSize, s, r)
    ensures WindowOutcome(pageSize, s, r, [])
  {
    hide Logical, Inv;
  }

  /** Filling mapping `k` with a writable window, with any number of list nodes. */
  lemma FillWindowPartly(pageSize: nat, s: Shadow, k: nat, target: nat, length: nat, inputs: seq<PageSegment>,
                         nodes: nat)
    requires pageSize > 0 && Inv(pageSize, s) && DirtyFits(s) && AllFit(s.mappings, |s.user|, |s.ram|)
    requires k < |s.mappings| && s.mappings[k].Contains(target, target + length) && s.mappings[k].protection.write
    requires MayRefreshAny(pageSize, s, target, length, inputs)
    ensures InputsFit(inputs, |s.user|, |s.ram|) && InputsReadable(Linked(inputs, nodes), |s.ram|)
    ensures var r := PlaceAll(RemoveSegments(s, k, target, target + length, true), k, inputs, nodes).0;
            WindowOutcome(pageSize, s, r, Linked(inputs, nodes))
  {
    RemoveKeeps(pageSize, s, k, target, target + length);
    var removed := RemoveSegments(s, k, target, target + length, true);
    forall x | x in inputs
      ensures PlacedFrom(s, removed, k, x)
    {
      PlaceableAfterRemove(pageSize, s, k, target, length, inputs, x);
    }
    AllFrom(s, removed, k, inputs);
    hide RemoveSegments, Inv, PlacedFrom, AllPlaceable, WindowOutcome, PlaceAll;
    PlacedPartly(pageSize, s, removed, k, inputs, nodes);
  }

  lemma AllFrom(s: Shadow, removed: Shadow, k: nat, inputs: seq<PageSegment>)
    requires DirtyFits(s) && |removed.ram| == |s.ram| && k < |removed.mappings| && removed.mappings[k].protection.write
    requires InputsApart(inputs, true) && forall x :: x in inputs ==> PlacedFrom(s, removed, k, x)
    ensures AllPlaceable(removed, k, inputs)
  {
    hide Placeable, Dirty, Logical;
  }

  /** Placing the pages into the cleared range. */
  lemma PlacedPartly(pageSize: nat, s: Shadow, removed: Shadow, k: nat, inputs: seq<PageSegment>, nodes: nat)
    requires pageSize > 0 && DirtyFits(s) && Keeps(pageSize, s, removed) && k < |removed.mappings|
    requires AllPlaceable(removed, k, inputs) && forall x :: x in inputs ==> PlacedFrom(s, removed, k, x)
    requires InputsReadable(inputs, |s.ram|)
    ensures InputsFit(inputs, |removed.user|, |removed.ram|) && AllFit(removed.mappings, |removed.user|, |removed.ram|)
    ensures InputsReadable(Linked(inputs, nodes), |s.ram|)
    ensures WindowOutcome(pageSize, s, PlaceAll(removed, k, inputs, nodes).0, Linked(inputs, nodes))
  {
    hide Inv, WellFormed, Clear, Placeable, Dirty, PlacedFrom, AllPlaceable, Logical, WindowEffect;
    var linked := Linked(inputs, nodes);
    LinkedPlaceable(removed, k, inputs, nodes);
    PlaceAllExact(pageSize, removed, k, linked, nodes);
    var r := PlaceAll(removed, k, linked, nodes).0;
    InvMeans(pageSize, r);
    DirtyBounds(pageSize, r);
    hide PlaceAll;
    EffectFollows(pageSize, s, removed, k, r, linked);
    InvMeans(pageSize, removed);
    AllPlaceableFits(pageSize, removed, k, inputs);
    if nodes < |inputs| {
      PlaceAllStops(pageSize, removed, k, inputs, nodes);
      var x := inputs[nodes];
      WriteClearRange(pageSize, r, x.target, Image(r.ram, SegmentOf(x), x.executable));
      OutcomeKept(pageSize, s, r, CopyIn(r, SegmentOf(x), x.executable), linked);
    }
  }

  // ---------------------------------------------------------------- every outcome of a refresh

  /** The pages of a window that reach the list of its mapping. */
  function Reached(pageSize: nat, s: Shadow, target: nat, length: nat, inputs: seq<PageSegment>,
                   o: Outcomes): (r: seq<PageSegment>)
    requires pageSize > 0 && |s.user| == ADDRESS_SPACE && AllFit(s.mappings, |s.user|, |s.ram|)
    ensures r <= inputs
  {
    if FindOrCreate(pageSize, s, target, length, WindowProtection(inputs), o).1.None? || !o.unprotect then []
    else Linked(inputs, o.segmentNodes)
  }

  /**
   Whatever the host answers, a refresh with a writable window rewrites the executable pages that reached
   the list, in Linux memory, and changes no other logical byte: when it fails, the mapping is unmapped
   and its pages are copied back.
   */
  lemma RefreshWindowOutcome(pageSize: nat, s: Shadow, target: nat, length: nat, inputs: seq<PageSegment>, o: Outcomes)
    requires IsPageSize(pageSize) && Inv(pageSize, s) && DirtyFits(s)
    requires MayRefreshAny(pageSize, s, target, length, inputs) && WindowProtection(inputs).write
    ensures AllFit(s.mappings, |s.user|, |s.ram|)
    ensures InputsReadable(Reached(pageSize, s, target, length, inputs, o), |s.ram|)
    ensures WindowOutcome(pageSize, s, RefreshWindow(pageSize, s, target, length, inputs, o).0,
                          Reached(pageSize, s, target, length, inputs, o))
  {
    WellFormedFits(pageSize, s);
    PageBounds(pageSize, target, length);
    hide PageEnd, PageStart, CreateAt, FindOrCreate, WindowOutcome;
    FindKeeps(pageSize, s, target, length, WindowProtection(inputs), o);
    var (found, at) := FindOrCreate(pageSize, s, target, length, WindowProtection(inputs), o);
    var reached := Reached(pageSize, s, target, length, inputs, o);
    var r := RefreshWindow(pageSize, s, target, length, inputs, o).0;
    if at.None? || !o.unprotect {
      NothingReached(pageSize, s, found);
    } else {
      var k := at.value;
      assert MayRefreshAny(pageSize, found, target, length, inputs);
      FillWindowPartly(pageSize, found, k, target, length, inputs, o.segmentNodes);
      var placed := PlaceAll(RemoveSegments(found, k, target, target + length, true), k, inputs, o.segmentNodes).0;
      FilledOutcome(pageSize, found, k, target, length, inputs, o, reached);
      OutcomeFrom(pageSize, s, found, r, reached);
    }
  }

  lemma FilledOutcome(pageSize: nat, s: Shadow, k: nat, target: nat, length: nat, inputs: seq<PageSegment>, o: Outcomes,
                      reached: seq<PageSegment>)
    requires pageSize > 0 && DirtyFits(s) && AllFit(s.mappings, |s.user|, |s.ram|)
    requires k < |s.mappings| && InputsFit(inputs, |s.user|, |s.ram|) && InputsReadable(reached, |s.ram|)
    requires WindowOutcome(pageSize, s, PlaceAll(RemoveSegments(s, k, target, target + length, true), k, inputs,
                                                 o.segmentNodes).0, reached)
    ensures WindowOutcome(pageSize, s, FillWindow(pageSize, s, k, target, length, inputs, o).0, reached)
  {
    var m := s.mappings[k];
    var placed := PlaceAll(RemoveSegments(s, k, target, target + length, true), k, inputs, o.segmentNodes).0;
    UnmapKeeps(pageSize, placed, m.target, m.length);
    OutcomeKept(pageSize, s, placed, UnmapRange(pageSize, placed, m.target, m.length), reached);
  }

  /**
   A refresh, failed or not, keeps the logical memory exactly when no executable page it reached has an
   instruction to rewrite.
   */
  lemma RefreshKeepsExactly(pageSize: nat, s: Shadow, target: nat, length: nat, inputs: seq<PageSegment>, o: Outcomes)
    requires IsPageSize(pageSize) && Inv(pageSize, s) && DirtyFits(s)
    requires MayRefreshAny(pageSize, s, target, length, inputs) && WindowProtection(inputs).write
    ensures AllFit(s.mappings, |s.user|, |s.ram|) && DirtyFits(RefreshWindow(pageSize, s, target, length, inputs, o).0)
    ensures Logical(RefreshWindow(pageSize, s, target, length, inputs, o).0) == Logical(s) <==>
            forall x :: x in Reached(pageSize, s, target, length, inputs, o) && x.executable ==>
              Untranslatable(Logical(s)[x.source..x.source + x.length])
  {
    RefreshWindowOutcome(pageSize, s, target, length, inputs, o);
    hide Logical, RefreshWindow, Reached, Inv;
    EffectPreservesExactly(s, RefreshWindow(pageSize, s, target, length, inputs, o).0,
                           Reached(pageSize, s, target, length, inputs, o));
  }

  // ---------------------------------------------------------------- stores to a window of mixed pages

  /** Once all pages are placed, the mapping lists a segment for each and has kept its protection. */
  lemma {:induction false} PlaceAllLinks(s: Shadow, k: nat, inputs: seq<PageSegment>, nodes: nat, kept: set<Segment>)
    requires k < |s.mappings| && InputsFit(inputs, |s.user|, |s.ram|) && AllFit(s.mappings, |s.user|, |s.ram|)
    requires kept <= SetOf(s.mappings[k].segments) && PlaceAll(s, k, inputs, nodes).1
    ensures var m := PlaceAll(s, k, inputs, nodes).0.mappings[k];
            m.protection == s.mappings[k].protection && kept + SegmentsOf(inputs) <= SetOf(m.segments)
    decreases |inputs|
  {
    if inputs != [] {
      var x, g := inputs[0], SegmentOf(inputs[0]);
      var added := AddSegment(CopyIn(s, g, x.executable), k, g);
      AddedFits(s, CopyIn(s, g, x.executable), k, g);
      assert InputsFit(inputs[1..], |added.user|, |added.ram|);
      PlaceAllNext(s, k, inputs, nodes, added);
      PlaceAllLinks(added, k, inputs[1..], nodes - 1, kept + {g});
      assert SegmentsOf(inputs) == {g} + SegmentsOf(inputs[1..]);
    }
  }

  /** A mapping of the asked protection that lists every page. */
  ghost predicate Lists(r: Shadow, m: Mapping, inputs: seq<PageSegment>) {
    && m in r.mappings && m.protection == WindowProtection(inputs)
    && forall x :: x in inputs ==> SegmentOf(x) in m.segments
  }

  lemma FillWindowLinks(pageSize: nat, s: Shadow, k: nat, target: nat, length: nat, inputs: seq<PageSegment>,
                        o: Outcomes)
    returns (m: Mapping)
    requires pageSize > 0 && WellFormed(pageSize, s) && AllFit(s.mappings, |s.user|, |s.ram|)
    requires k < |s.mappings| && s.mappings[k].Contains(target, target + length)
    requires s.mappings[k].protection == WindowProtection(inputs) && InputsFit(inputs, |s.user|, |s.ram|)
    requires FillWindow(pageSize, s, k, target, length, inputs, o).1
    ensures Lists(FillWindow(pageSize, s, k, target, length, inputs, o).0, m, inputs)
  {
    var removed := RemoveSegments(s, k, target, target + length, true);
    RemoveShape(pageSize, s, k, target, target + length, true);
    WellFormedFits(pageSize, removed);
    var placed := PlaceAll(removed, k, inputs, o.segmentNodes).0;
    assert removed.mappings[k].protection == WindowProtection(inputs);
    hide RemoveSegments, PlaceAll, WellFormed, AllFit, InputsFit, Clear, UnmapRange;
    PlaceAllLinks(removed, k, inputs, o.segmentNodes, {});
    m := placed.mappings[k];
    forall x | x in inputs
      ensures SegmentOf(x) in m.segments
    {
      assert SegmentOf(x) in SegmentsOf(inputs);
    }
  }

  lemma FindProtection(pageSize: nat, s: Shadow, target: nat, length: nat, protection: Protection, o: Outcomes)
    requires IsPageSize(pageSize) && WellFormed(pageSize, s) && AllFit(s.mappings, |s.user|, |s.ram|)
    requires pageSize <= target && !BadRange(target, length)
    ensures var (r, at) := FindOrCreate(pageSize, s, target, length, protection, o);
            && WellFormed(pageSize, r) && |r.ram| == |s.ram|
            && (at.Some? ==>
                  && r.mappings[at.value].Contains(target, target + length)
                  && r.mappings[at.value].protection == protection)
  {
    FindShape(pageSize, s, target, length, protection, o);
    hide WellFormed, AllFit, PageStart, PageEnd;
  }

  lemma InputsInside(inputs: seq<PageSegment>, target: nat, length: nat, ramSize: nat)
    requires InputsReadable(inputs, ramSize) && forall x :: x in inputs ==> InputOk(x, target, target + length)
    ensures InputsFit(inputs, ADDRESS_SPACE, ramSize)
  {
  }

  /** A successful refresh leaves one mapping with the joint protection that lists every page. */
  lemma RefreshWindowLinks(pageSize: nat, s: Shadow, target: nat, length: nat, inputs: seq<PageSegment>, o: Outcomes)
    returns (m: Mapping)
    requires IsPageSize(pageSize) && WellFormed(pageSize, s) && AllFit(s.mappings, |s.user|, |s.ram|)
    requires WindowInReach(pageSize, s, target, length, inputs)
    requires RefreshWindow(pageSize, s, target, length, inputs, o).1
    ensures Lists(RefreshWindow(pageSize, s, target, length, inputs, o).0, m, inputs)
  {
    hide FindOrCreate, FillWindow, AllFit, InputsApart, InputsFit, Lists, WindowProtection;
    FindProtection(pageSize, s, target, length, WindowProtection(inputs), o);
    var (found, at) := FindOrCreate(pageSize, s, target, length, WindowProtection(inputs), o);
    InputsInside(inputs, target, length, |s.ram|);
    m := FillWindowLinks(pageSize, found, at.value, target, length, inputs, o);
  }

  /** What a sync makes of a store through one segment. */
  lemma StoreThroughPage(pageSize: nat, s: Shadow, m: Mapping, g: Segment, a: nat, value: Byte)
    requires pageSize > 0 && Inv(pageSize, s) && m in s.mappings && g in m.segments && g.Hits(a, a + 1)
    ensures AllFit(s.mappings, |s.user|, |s.ram|) && a < |s.user| && g.source + g.length <= |s.ram|
    ensures Sync(UserStore(s, a, value)).ram[g.source + (a - g.target)]
         == if m.protection.write then value else Sync(s).ram[g.source + (a - g.target)]
  {
    WellFormedFits(pageSize, s);
    SegmentInMapping(pageSize, s, m, g);
    StoreKeeps(pageSize, s, a, value);
    SyncKeeps(pageSize, s);
    SyncKeeps(pageSize, UserStore(s, a, value));
    hide Logical;
    if m.protection.write {
      DirtyHas(s.mappings, m, g);
      StoreEffectAt(pageSize, s, a, value, g);
    } else if h :| h in Dirty(s.mappings) && h.Hits(a, a + 1) {
      var n :| n in s.mappings && n.protection.write && h in n.segments;
      TargetsApart(pageSize, s, m, g, n, h, a);
    }
  }

  lemma RefreshAnyInv(pageSize: nat, s: Shadow, target: nat, length: nat, inputs: seq<PageSegment>, o: Outcomes)
    requires IsPageSize(pageSize) && Inv(pageSize, s) && DirtyFits(s)
    requires MayRefreshAny(pageSize, s, target, length, inputs)
    ensures WellFormed(pageSize, s) && AllFit(s.mappings, |s.user|, |s.ram|)
    ensures WindowInReach(pageSize, s, target, length, inputs) && InputsReadable(inputs, |s.ram|)
    ensures var r := RefreshWindow(pageSize, s, target, length, inputs, o).0;
            Inv(pageSize, r) && |r.ram| == |s.ram|
  {
    WellFormedFits(pageSize, s);
    if WindowProtection(inputs).write {
      RefreshWindowOutcome(pageSize, s, target, length, inputs, o);
    } else {
      RefreshWindowKeeps(pageSize, s, target, length, inputs, o);
    }
  }

  /** A store to a page of a window takes effect by the rights of the window. */
  ghost predicate StoreByRights(r: Shadow, inputs: seq<PageSegment>, x: PageSegment, a: nat, value: Byte)
    requires x.target <= a < x.target + x.length
  {
    && a < |r.user| && AllFit(r.mappings, |r.user|, |r.ram|) && x.source + x.length <= |r.ram|
    && Sync(UserStore(r, a, value)).ram[x.source + (a - x.target)]
    == if WindowProtection(inputs).write then value else Sync(r).ram[x.source + (a - x.target)]
  }

  lemma StoreToListed(pageSize: nat, r: Shadow, m: Mapping, inputs: seq<PageSegment>, x: PageSegment, a: nat,
                      value: Byte)
    requires pageSize > 0 && Inv(pageSize, r) && Lists(r, m, inputs)
    requires x in inputs && x.target <= a < x.target + x.length
    ensures StoreByRights(r, inputs, x, a, value)
  {
    hide Inv, AllFit, UserStore, Sync, WindowProtection;
    StoreThroughPage(pageSize, r, m, SegmentOf(x), a, value);
  }

  lemma RefreshedStore(pageSize: nat, s: Shadow, target: nat, length: nat, inputs: seq<PageSegment>, o: Outcomes,
                       x: PageSegment, a: nat, value: Byte)
    requires IsPageSize(pageSize) && WellFormed(pageSize, s) && AllFit(s.mappings, |s.user|, |s.ram|)
    requires WindowInReach(pageSize, s, target, length, inputs)
    requires RefreshWindow(pageSize, s, target, length, inputs, o).1
    requires Inv(pageSize, RefreshWindow(pageSize, s, target, length, inputs, o).0)
    requires x in inputs && x.target <= a < x.target + x.length
    ensures StoreByRights(RefreshWindow(pageSize, s, target, length, inputs, o).0, inputs, x, a, value)
  {
    var m := RefreshWindowLinks(pageSize, s, target, length, inputs, o);
    hide RefreshWindow, Inv, AllFit, WindowInReach, WellFormed, StoreByRights, Lists;
    StoreToListed(pageSize, RefreshWindow(pageSize, s, target, length, inputs, o).0, m, inputs, x, a, value);
  }

  /**
   A store to a page that was handed in as not writable reaches Linux memory at the next sync exactly
   when another page of the window is writable, or the byte was there already: rights are those of the window.
   */
  lemma MixedWindowStoreExactly(pageSize: nat, s: Shadow, target: nat, length: nat, inputs: seq<PageSegment>,
                                o: Outcomes, x: PageSegment, a: nat, value: Byte)
    requires IsPageSize(pageSize) && Inv(pageSize, s) && DirtyFits(s)
    requires MayRefreshAny(pageSize, s, target, length, inputs)
    requires x in inputs && !x.writable && x.target <= a < x.target + x.length
    ensures AllFit(s.mappings, |s.user|, |s.ram|) && x.source + x.length <= |s.ram|
    ensures var (r, ok) := RefreshWindow(pageSize, s, target, length, inputs, o);
            ok ==>
              && a < |r.user| && |r.ram| == |s.ram| && AllFit(r.mappings, |r.user|, |r.ram|)
              && var p := x.source + (a - x.target);
                 Sync(UserStore(r, a, value)).ram[p] == value <==>
                   (exists y :: y in inputs && y != x && y.writable) || Sync(r).ram[p] == value
  {
    RefreshAnyInv(pageSize, s, target, length, inputs, o);
    hide RefreshWindow, MayRefreshAny, Inv, AllFit, DirtyFits, UserStore, Sync, WindowInReach, WellFormed;
    var (r, ok) := RefreshWindow(pageSize, s, target, length, inputs, o);
    if ok {
      RefreshedStore(pageSize, s, target, length, inputs, o, x, a, value);
    }
  }

  // ---------------------------------------------------------------- one page

  /** A page as a window of its own. */
  function OnePage(g: Segment, execute: bool): (r: seq<PageSegment>)
    ensures |r| == 1 && r[0] in r && SegmentOf(r[0]) == g && r[0].executable == execute
  {
    [PageSegment(g.target, g.source, g.length, true, execute)]
  }

  ghost predicate MayMapAny(pageSize: nat, s: Shadow, g: Segment, execute: bool) {
    MayRefreshAny(pageSize, s, g.target, g.length, OnePage(g, execute))
  }

  lemma MayMapMeans(pageSize: nat, s: Shadow, g: Segment, execute: bool)
    requires MayMapAny(pageSize, s, g, execute)
    ensures !BadRange(g.target, g.length) && pageSize <= g.target && g.source != 0 && g.source + g.length <= |s.ram|
  {
    var x := OnePage(g, execute)[0];
    assert x in OnePage(g, execute) && InputOk(x, g.target, g.target + g.length);
  }

  /** The page, if it reaches the list of its mapping. */
  function ReachedPage(pageSize: nat, s: Shadow, g: Segment, protection: Protection, o: Outcomes): (r: seq<PageSegment>)
    requires pageSize > 0 && |s.user| == ADDRESS_SPACE && AllFit(s.mappings, |s.user|, |s.ram|)
    ensures r <= OnePage(g, protection.execute)
  {
    if FindOrCreate(pageSize, s, g.target, g.length, protection, o).1.None? || !o.unprotect then []
    else Linked(OnePage(g, protection.execute), o.segmentNodes)
  }

  lemma PlaceOnePage(s: Shadow, k: nat, g: Segment, execute: bool, nodes: nat)
    requires k < |s.mappings| && AllFit(s.mappings, |s.user|, |s.ram|)
    requires InputsFit(OnePage(g, execute), |s.user|, |s.ram|)
    ensures g.target + g.length <= |s.user| && g.source + g.length <= |s.ram|
    ensures PlaceAll(s, k, OnePage(g, execute), nodes).0
         == if nodes == 0 then CopyIn(s, g, execute) else AddSegment(CopyIn(s, g, execute), k, g)
  {
    hide Splice, Image;
    var x := OnePage(g, execute)[0];
    assert x in OnePage(g, execute) && SegmentOf(x) == g;
    if nodes > 0 {
      var added := AddSegment(CopyIn(s, g, execute), k, g);
      AddedFits(s, CopyIn(s, g, execute), k, g);
      PlaceAllNone(added, k, nodes - 1);
      PlaceAllNext(s, k, OnePage(g, execute), nodes, added);
    }
  }

  lemma AddedFits(s: Shadow, copied: Shadow, k: nat, g: Segment)
    requires k < |s.mappings| && AllFit(s.mappings, |s.user|, |s.ram|)
    requires copied.mappings == s.mappings && |copied.user| == |s.user| && |copied.ram| == |s.ram|
    requires g.target + g.length <= |s.user| && g.source + g.length <= |s.ram|
    ensures AllFit(AddSegment(copied, k, g).mappings, |s.user|, |s.ram|)
  {
    var m := s.mappings[k];
    assert m in s.mappings && Fits(m.segments, |s.user|, |s.ram|);
    assert Fits([g] + m.segments, |s.user|, |s.ram|);
  }

  lemma FillPageIsWindow(pageSize: nat, s: Shadow, k: nat, g: Segment, execute: bool, o: Outcomes)
    requires pageSize > 0 && Inv(pageSize, s) && AllFit(s.mappings, |s.user|, |s.ram|)
    requires k < |s.mappings| && s.mappings[k].Contains(g.target, g.target + g.length)
    requires g.target + g.length <= |s.user| && g.source + g.length <= |s.ram|
    requires InputsFit(OnePage(g, execute), |s.user|, |s.ram|)
    ensures FillPage(s, k, g, execute, true, o).0
         == PlaceAll(RemoveSegments(s, k, g.target, g.target + g.length, true), k, OnePage(g, execute),
                     o.segmentNodes).0
  {
    hide OnePage, Inv, AllFit, PlaceAll, AddSegment, CopyIn;
    RemoveKeeps(pageSize, s, k, g.target, g.target + g.length);
    var removed := RemoveSegments(s, k, g.target, g.target + g.length, true);
    hide RemoveSegments;
    FitsAfter(pageSize, removed);
    PlaceOnePage(removed, k, g, execute, o.segmentNodes);
  }

  lemma FillPageOutcome(pageSize: nat, s: Shadow, k: nat, g: Segment, execute: bool, o: Outcomes)
    requires pageSize > 0 && Inv(pageSize, s) && DirtyFits(s) && AllFit(s.mappings, |s.user|, |s.ram|)
    requires k < |s.mappings| && s.mappings[k].Contains(g.target, g.target + g.length) && s.mappings[k].protection.write
    requires MayMapAny(pageSize, s, g, execute) && g.target + g.length <= |s.user| && g.source + g.length <= |s.ram|
    ensures InputsReadable(Linked(OnePage(g, execute), o.segmentNodes), |s.ram|)
    ensures WindowOutcome(pageSize, s, FillPage(s, k, g, execute, true, o).0,
                          Linked(OnePage(g, execute), o.segmentNodes))
  {
    hide WindowOutcome, PlaceAll, MayRefreshAny, OnePage, Inv, DirtyFits, FillPage, AllFit, RemoveSegments, InputsFit;
    hide InputsReadable, Linked;
    FillWindowPartly(pageSize, s, k, g.target, g.length, OnePage(g, execute), o.segmentNodes);
    FillPageIsWindow(pageSize, s, k, g, execute, o);
  }

  lemma FitsAfter(pageSize: nat, s: Shadow)
    requires pageSize > 0 && Inv(pageSize, s)
    ensures AllFit(s.mappings, |s.user|, |s.ram|)
  {
    WellFormedFits(pageSize, s);
  }

  lemma MayMapStill(pageSize: nat, s: Shadow, r: Shadow, g: Segment, execute: bool)
    requires pageSize > 0 && Keeps(pageSize, s, r) && MayMapAny(pageSize, s, g, execute)
    ensures MayMapAny(pageSize, r, g, execute)
  {
    hide Logical, Inv, Dirty;
  }

  /**
   Mapping one page writable, on every outcome: once its segment is in the list, an executable page is
   rewritten in Linux memory, and no other logical byte changes.
   */
  lemma MapPageOutcome(pageSize: nat, s: Shadow, g: Segment, protection: Protection, o: Outcomes)
    requires IsPageSize(pageSize) && Inv(pageSize, s) && DirtyFits(s) && protection.write
    requires MayMapAny(pageSize, s, g, protection.execute)
    ensures |s.user| == ADDRESS_SPACE && AllFit(s.mappings, |s.user|, |s.ram|) && g.source + g.length <= |s.ram|
    ensures InputsReadable(ReachedPage(pageSize, s, g, protection, o), |s.ram|)
    ensures WindowOutcome(pageSize, s, MapShadowUserPages(pageSize, s, g, protection, true, true, o).0,
                          ReachedPage(pageSize, s, g, protection, o))
  {
    WellFormedFits(pageSize, s);
    MayMapMeans(pageSize, s, g, protection.execute);
    hide Inv, Logical, DirtyFits, MayMapAny, OnePage, FindOrCreate, WindowOutcome, FillPage, AllFit;
    FindKeeps(pageSize, s, g.target, g.length, protection, o);
    var (found, at) := FindOrCreate(pageSize, s, g.target, g.length, protection, o);
    if at.None? || !o.unprotect {
      NothingReached(pageSize, s, found);
    } else {
      MayMapStill(pageSize, s, found, g, protection.execute);
      FitsAfter(pageSize, found);
      FillPageOutcome(pageSize, found, at.value, g, protection.execute, o);
      OutcomeFrom(pageSize, s, found, FillPage(found, at.value, g, protection.execute, true, o).0,
                  ReachedPage(pageSize, s, g, protection, o));
    }
  }

  /**
   Mapping a page writable and executable keeps the logical memory exactly when its segment does not
   reach the list or the page has no instruction to rewrite.
   */
  lemma MapPageKeepsExactly(pageSize: nat, s: Shadow, g: Segment, o: Outcomes)
    requires IsPageSize(pageSize) && Inv(pageSize, s) && DirtyFits(s) && MayMapAny(pageSize, s, g, true)
    ensures |s.user| == ADDRESS_SPACE && AllFit(s.mappings, |s.user|, |s.ram|) && g.source + g.length <= |s.ram|
    ensures DirtyFits(MapPage(pageSize, s, g, Protection(true, true), o).0)
    ensures Logical(MapPage(pageSize, s, g, Protection(true, true), o).0) == Logical(s) <==>
            || ReachedPage(pageSize, s, g, Protection(true, true), o) == []
            || Untranslatable(Logical(s)[g.source..g.source + g.length])
  {
    MapPageOutcome(pageSize, s, g, Protection(true, true), o);
    hide Inv, MapShadowUserPages, ReachedPage, MayMapAny, WindowOutcome, Logical;
    OnePageKept(pageSize, s, MapPage(pageSize, s, g, Protection(true, true), o).0, g,
                ReachedPage(pageSize, s, g, Protection(true, true), o));
  }

  lemma OnePageKept(pageSize: nat, s: Shadow, r: Shadow, g: Segment, reached: seq<PageSegment>)
    requires pageSize > 0 && DirtyFits(s) && g.source + g.length <= |s.ram| && reached <= OnePage(g, true)
    requires InputsReadable(reached, |s.ram|) && WindowOutcome(pageSize, s, r, reached)
    ensures DirtyFits(r)
    ensures Logical(r) == Logical(s) <==> reached == [] || Untranslatable(Logical(s)[g.source..g.source + g.length])
  {
    hide Logical, Inv, WindowEffect, Translate, Untranslatable, DirtyFits;
    EffectPreservesExactly(s, r, reached);
    assert reached == [] || reached == OnePage(g, true);
  }

  // ---------------------------------------------------------------- writable segments with a common source

  /** The segments that are copied back, in the order of the loops. */
  function CopiedBack(ms: seq<Mapping>): seq<Segment> {
    if ms == [] then []
    else (if ms[0].protection.write then ms[0].segments else []) + CopiedBack(ms[1..])
  }

  /** The last segment of the list that shows source byte `p`. */
  function LastMirror(gs: seq<Segment>, p: nat): (r: Option<Segment>)
    ensures r.Some? ==> r.value in gs && r.value.Mirrors(p)
    ensures r.None? ==> forall g :: g in gs ==> !g.Mirrors(p)
  {
    if gs == [] then None
    else if LastMirror(gs[1..], p).Some? then LastMirror(gs[1..], p)
    else if gs[0].Mirrors(p) then Some(gs[0])
    else None
  }

  lemma {:induction false} CopyBackAppend(user: seq<Byte>, ram: seq<Byte>, a: seq<Segment>, b: seq<Segment>)
    requires Fits(a, |user|, |ram|) && Fits(b, |user|, |ram|)
    ensures Fits(a + b, |user|, |ram|) && CopyBack(user, ram, a + b) == CopyBack(user, CopyBack(user, ram, a), b)
    decreases |a|
  {
    if a == [] {
      assert a + b == b;
    } else {
      assert a[0] in a && (a + b)[0] == a[0] && (a + b)[1..] == a[1..] + b;
      CopyBackAppend(user, Splice(ram, a[0].source, user[a[0].target..a[0].target + a[0].length]), a[1..], b);
    }
  }

  lemma {:induction false} FlushInOrder(user: seq<Byte>, ram: seq<Byte>, ms: seq<Mapping>)
    requires AllFit(ms, |user|, |ram|)
    ensures Fits(CopiedBack(ms), |user|, |ram|) && Flush(user, ram, ms) == CopyBack(user, ram, CopiedBack(ms))
    decreases |ms|
  {
    hide CopyBack;
    if ms == [] {
      NothingCopied(user, ram);
    } else {
      var first := if ms[0].protection.write then ms[0].segments else [];
      assert ms[0] in ms && Fits(first, |user|, |ram|);
      NothingCopied(user, ram);
      FlushInOrder(user, CopyBackMapping(user, ram, ms[0]), ms[1..]);
      CopyBackAppend(user, ram, first, CopiedBack(ms[1..]));
    }
  }

  lemma NothingCopied(user: seq<Byte>, ram: seq<Byte>)
    ensures CopyBack(user, ram, []) == ram
  {
  }

  /** Copying segments back one after another leaves what the last one showed, aliased or not. */
  lemma {:induction false} CopyBackLast(user: seq<Byte>, ram: seq<Byte>, gs: seq<Segment>, p: nat)
    requires Fits(gs, |user|, |ram|) && p < |ram|
    ensures LastMirror(gs, p).None? ==> CopyBack(user, ram, gs)[p] == ram[p]
    ensures LastMirror(gs, p).Some? ==>
              var h := LastMirror(gs, p).value;
              h.target + h.length <= |user| && CopyBack(user, ram, gs)[p] == user[h.TargetOf(p)]
    decreases |gs|
  {
    if gs != [] {
      var g := gs[0];
      var copied := Splice(ram, g.source, user[g.target..g.target + g.length]);
      assert CopyBack(user, ram, gs) == CopyBack(user, copied, gs[1..]);
      CopyBackLast(user, copied, gs[1..], p);
    }
  }

  /**
   When writable segments share source bytes, a sync takes each byte from the last segment in list order.
   A store through segment `g` survives the sync exactly when that segment shows the stored byte, being
   `g` itself or another view that happens to hold the same value.
   */
  lemma AliasedStoreSurvivesExactly(s: Shadow, g: Segment, p: nat, value: Byte)
    requires AllFit(s.mappings, |s.user|, |s.ram|) && p < |s.ram| && g.Mirrors(p) && g.TargetOf(p) < |s.user|
    requires exists m ::
               m in s.mappings && m.protection.write && g in m.segments && m.Hits(g.TargetOf(p), g.TargetOf(p) + 1)
    ensures LastMirror(CopiedBack(s.mappings), p).Some?
    ensures var h := LastMirror(CopiedBack(s.mappings), p).value;
            && h.TargetOf(p) < |s.user|
            && (Sync(UserStore(s, g.TargetOf(p), value)).ram[p] == value <==>
                  h.TargetOf(p) == g.TargetOf(p) || s.user[h.TargetOf(p)] == value)
  {
    var m :| m in s.mappings && m.protection.write && g in m.segments && m.Hits(g.TargetOf(p), g.TargetOf(p) + 1);
    CopiedBackHas(s.mappings, m, g);
    var r := UserStore(s, g.TargetOf(p), value);
    assert r == s.(user := s.user[g.TargetOf(p) := value]);
    FlushInOrder(r.user, r.ram, r.mappings);
    CopyBackLast(r.user, r.ram, CopiedBack(r.mappings), p);
  }

  /** Concrete failure: of two writable views of one page, a store through the one copied back first is lost. */
  lemma AliasedStoreLost(s: Shadow, g: Segment, h: Segment)
    requires |s.user| == ADDRESS_SPACE && |s.ram| == 8192
    requires g == Segment(16384, 4096, 4096) && h == Segment(20480, 4096, 4096)
    requires s.mappings == [Mapping(16384, 16384, Protection(true, false), [g, h])]
    requires s.user[20480] == 0
    ensures WellFormed(16384, s) && AllFit(s.mappings, |s.user|, |s.ram|)
    ensures Sync(UserStore(s, 16384, 1)).ram[4096] == 0
  {
    var m := s.mappings[0];
    assert SegmentOk(m, g, |s.ram|) && SegmentOk(m, h, |s.ram|);
    WellFormedFits(16384, s);
    var r := UserStore(s, 16384, 1);
    assert m in s.mappings && r == s.(user := s.user[16384 := 1]);
    FlushInOrder(r.user, r.ram, r.mappings);
    assert s.mappings[1..] == [];
    assert CopiedBack(s.mappings) == [g, h];
    assert [g, h][1..] == [h] && h.Mirrors(4096);
    assert LastMirror([h], 4096) == Some(h);
    CopyBackLast(r.user, r.ram, [g, h], 4096);
  }

  lemma {:induction false} CopiedBackHas(ms: seq<Mapping>, m: Mapping, g: Segment)
    requires m in ms && m.protection.write && g in m.segments
    ensures g in CopiedBack(ms)
    decreases |ms|
  {
    if ms[0] != m {
      CopiedBackHas(ms[1..], m, g);
    }
  }
}
