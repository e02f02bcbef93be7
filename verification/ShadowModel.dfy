/**
 User shadow mappings of the host adapter (memory/kernel_mapping.c), on values.

 Linux pages (`ram`, read and written through `source` addresses) are mirrored into the user
 address range (`user`, indexed by target address). A mapping is a run of host pages with one
 protection; its segments say which target bytes mirror which source bytes. The `writable` flag of
 the sources always equals the write bit of the protection and is not kept apart.

 Results of Mach calls and of `malloc` are inputs (`Outcomes`); NULL is source address 0.
 */
module ShadowModel {
  import opened HostTypes
  import opened Slices
  import opened Translation

  datatype Protection = Protection(write: bool, execute: bool)

  datatype Segment = Segment(target: nat, source: nat, length: nat) {
    /** The overlap test of the segment loops. */
    predicate Hits(lo: nat, hi: nat) {
      lo < target + length && target < hi
    }

    predicate Mirrors(p: nat) {
      source <= p < source + length
    }

    /** Where the user sees source byte `p`. */
    function TargetOf(p: nat): nat
      requires Mirrors(p)
    {
      target + (p - source)
    }

    predicate SourceApart(other: Segment) {
      source + length <= other.source || other.source + other.length <= source
    }
  }

  datatype Mapping = Mapping(target: nat, length: nat, protection: Protection, segments: seq<Segment>) {
    predicate Hits(lo: nat, hi: nat) {
      lo < target + length && target < hi
    }

    predicate Contains(lo: nat, hi: nat) {
      target <= lo && hi <= target + length
    }
  }

  datatype Shadow = Shadow(user: seq<Byte>, ram: seq<Byte>, mappings: seq<Mapping>)

  /** What the host answered: `segmentNodes` counts the segment allocations that succeed. */
  datatype Outcomes = Outcomes(allocate: bool, mappingNode: bool, unprotect: bool, segmentNodes: nat, protect: bool)

  /** One element of the array handed to `orlix_host_user_refresh_window`. */
  datatype PageSegment = PageSegment(target: nat, source: nat, length: nat, writable: bool, executable: bool)

  // ---------------------------------------------------------------- page arithmetic

  /** A power of two up to the size of the address space, which is what the masks rely on. */
  ghost predicate IsPageSize(pageSize: nat) {
    pageSize > 0 && ADDRESS_SPACE % pageSize == 0
  }

  function PageStart(pageSize: nat, address: nat): (r: nat)
    requires pageSize > 0
    ensures r <= address < r + pageSize
  {
    address - address % pageSize
  }

  /** 0 when the rounded end would not fit an `unsigned long`. */
  function PageEnd(pageSize: nat, address: nat, length: nat): (r: nat)
    requires pageSize > 0
  {
    if length == 0 || address + length >= ADDRESS_SPACE then 0
    else if address + length + pageSize > ADDRESS_SPACE then 0
    else PageStart(pageSize, address + length + pageSize - 1)
  }

  // ---------------------------------------------------------------- invariant

  ghost predicate SegmentOk(m: Mapping, g: Segment, ramSize: nat) {
    && 0 < g.length
    && m.Contains(g.target, g.target + g.length)
    && g.source + g.length <= ramSize
  }

  ghost predicate Disjoint(gs: seq<Segment>) {
    forall i, j :: 0 <= i < j < |gs| ==> !gs[i].Hits(gs[j].target, gs[j].target + gs[j].length)
  }

  ghost predicate SegmentsOk(m: Mapping, ramSize: nat) {
    && (forall i :: 0 <= i < |m.segments| ==> SegmentOk(m, m.segments[i], ramSize))
    && Disjoint(m.segments)
  }

  ghost predicate MappingOk(pageSize: nat, m: Mapping, ramSize: nat)
    requires pageSize > 0
  {
    && 0 < m.target && 0 < m.length && m.target + m.length < ADDRESS_SPACE
    && m.target % pageSize == 0 && (m.target + m.length) % pageSize == 0
    && SegmentsOk(m, ramSize)
  }

  ghost predicate Apart(ms: seq<Mapping>) {
    forall i, j :: 0 <= i < j < |ms| ==> !ms[i].Hits(ms[j].target, ms[j].target + ms[j].length)
  }

  /** Segments whose target bytes are newer than, or equal to, their source bytes. */
  ghost function Dirty(ms: seq<Mapping>): set<Segment> {
    set m, g | m in ms && m.protection.write && g in m.segments :: g
  }

  ghost function SetOf(gs: seq<Segment>): set<Segment> {
    set g | g in gs
  }

  ghost predicate Unaliased(gs: set<Segment>) {
    forall g, h :: g in gs && h in gs && g != h ==> g.SourceApart(h)
  }

  /** Mappings are page-aligned and disjoint, segments lie inside them and are disjoint. */
  ghost predicate WellFormed(pageSize: nat, s: Shadow)
    requires pageSize > 0
  {
    && |s.user| == ADDRESS_SPACE
    && (forall i :: 0 <= i < |s.mappings| ==> MappingOk(pageSize, s.mappings[i], |s.ram|))
    && Apart(s.mappings)
  }

  ghost predicate Inv(pageSize: nat, s: Shadow)
    requires pageSize > 0
  {
    WellFormed(pageSize, s) && Unaliased(Dirty(s.mappings))
  }

  // ---------------------------------------------------------------- the logical memory

  /** The byte Linux and the user process agree on for source address `p`. */
  ghost function LogicalByte(user: seq<Byte>, ram: seq<Byte>, dirty: set<Segment>, p: nat): Byte
    requires p < |ram|
    requires forall g :: g in dirty ==> g.target + g.length <= |user|
  {
    if exists g :: g in dirty && g.Mirrors(p)
    then var g :| g in dirty && g.Mirrors(p); user[g.TargetOf(p)]
    else ram[p]
  }

  ghost predicate DirtyFits(s: Shadow) {
    forall g :: g in Dirty(s.mappings) ==> g.target + g.length <= |s.user|
  }

  /** User bytes under writable segments, source bytes elsewhere. */
  ghost function Logical(s: Shadow): (r: seq<Byte>)
    requires DirtyFits(s)
    ensures |r| == |s.ram|
  {
    seq(|s.ram|, p requires 0 <= p < |s.ram| => LogicalByte(s.user, s.ram, Dirty(s.mappings), p))
  }

  // ---------------------------------------------------------------- copy back

  predicate Fits(gs: seq<Segment>, userSize: nat, ramSize: nat) {
    forall g :: g in gs ==> g.target + g.length <= userSize && g.source + g.length <= ramSize
  }

  /** The copy-back loop over a list of segments. */
  function CopyBack(user: seq<Byte>, ram: seq<Byte>, gs: seq<Segment>): (r: seq<Byte>)
    requires Fits(gs, |user|, |ram|)
    ensures |r| == |ram|
    decreases |gs|
  {
    if gs == [] then ram
    else
      var g := gs[0];
      assert Fits(gs[1..], |user|, |ram|);
      CopyBack(user, Splice(ram, g.source, user[g.target..g.target + g.length]), gs[1..])
  }

  predicate AllFit(ms: seq<Mapping>, userSize: nat, ramSize: nat) {
    forall m :: m in ms ==> Fits(m.segments, userSize, ramSize)
  }

  function CopyBackMapping(user: seq<Byte>, ram: seq<Byte>, m: Mapping): (r: seq<Byte>)
    requires Fits(m.segments, |user|, |ram|)
    ensures |r| == |ram|
  {
    if m.protection.write then CopyBack(user, ram, m.segments) else ram
  }

  /** Copy back of every mapping of a list, in list order. */
  function Flush(user: seq<Byte>, ram: seq<Byte>, ms: seq<Mapping>): (r: seq<Byte>)
    requires AllFit(ms, |user|, |ram|)
    ensures |r| == |ram|
    decreases |ms|
  {
    if ms == [] then ram
    else Flush(user, CopyBackMapping(user, ram, ms[0]), ms[1..])
  }

  // ---------------------------------------------------------------- list surgery

  function MappingsHit(ms: seq<Mapping>, lo: nat, hi: nat): (r: seq<Mapping>)
    ensures forall m :: m in r <==> m in ms && m.Hits(lo, hi)
  {
    if ms == [] then []
    else (if ms[0].Hits(lo, hi) then [ms[0]] else []) + MappingsHit(ms[1..], lo, hi)
  }

  function MappingsMissed(ms: seq<Mapping>, lo: nat, hi: nat): (r: seq<Mapping>)
    ensures forall m :: m in r <==> m in ms && !m.Hits(lo, hi)
  {
    if ms == [] then []
    else (if ms[0].Hits(lo, hi) then [] else [ms[0]]) + MappingsMissed(ms[1..], lo, hi)
  }

  function SegmentsHit(gs: seq<Segment>, lo: nat, hi: nat): (r: seq<Segment>)
    ensures forall g :: g in r <==> g in gs && g.Hits(lo, hi)
  {
    if gs == [] then []
    else (if gs[0].Hits(lo, hi) then [gs[0]] else []) + SegmentsHit(gs[1..], lo, hi)
  }

  function SegmentsMissed(gs: seq<Segment>, lo: nat, hi: nat): (r: seq<Segment>)
    ensures forall g :: g in r <==> g in gs && !g.Hits(lo, hi)
  {
    if gs == [] then []
    else (if gs[0].Hits(lo, hi) then [] else [gs[0]]) + SegmentsMissed(gs[1..], lo, hi)
  }

  /** Index of the first mapping that contains the range and has the protection. */
  function FindMapping(ms: seq<Mapping>, lo: nat, hi: nat, protection: Protection): (r: Option<nat>)
    ensures r.Some? ==> r.value < |ms| && ms[r.value].Contains(lo, hi) && ms[r.value].protection == protection
    ensures r.None? ==> forall i :: 0 <= i < |ms| ==> !(ms[i].Contains(lo, hi) && ms[i].protection == protection)
  {
    if ms == [] then None
    else if ms[0].Contains(lo, hi) && ms[0].protection == protection then Some(0)
    else match FindMapping(ms[1..], lo, hi, protection)
      case None => None
      case Some(k) => Some(k + 1)
  }

  // ---------------------------------------------------------------- the steps of the operations

  function FlushHit(s: Shadow, lo: nat, hi: nat): (r: seq<Byte>)
    requires AllFit(s.mappings, |s.user|, |s.ram|)
    ensures |r| == |s.ram|
  {
    assert AllFit(MappingsHit(s.mappings, lo, hi), |s.user|, |s.ram|);
    Flush(s.user, s.ram, MappingsHit(s.mappings, lo, hi))
  }

  /** Every mapping that touches the host pages of the range is copied back and removed. */
  function UnmapRange(pageSize: nat, s: Shadow, target: nat, length: nat): Shadow
    requires pageSize > 0
    requires AllFit(s.mappings, |s.user|, |s.ram|)
  {
    var start, end := PageStart(pageSize, target), PageEnd(pageSize, target, length);
    if target == 0 || end == 0 || end <= start then s
    else Shadow(s.user, FlushHit(s, start, end), MappingsMissed(s.mappings, start, end))
  }

  function Zeros(n: nat): (r: seq<Byte>)
    ensures |r| == n
  {
    seq(n, _ => 0)
  }

  /** Mapping creation once the host page bounds are known; on success the new mapping is the first of the list. */
  function CreateAt(pageSize: nat, s: Shadow, start: nat, end: nat, protection: Protection,
                    o: Outcomes): (r: (Shadow, bool))
    requires pageSize > 0 && start < end <= |s.user|
    requires AllFit(s.mappings, |s.user|, |s.ram|)
    ensures |r.0.user| == |s.user| && |r.0.ram| == |s.ram| && AllFit(r.0.mappings, |s.user|, |s.ram|)
    ensures r.1 ==> |r.0.mappings| > 0 && r.0.mappings[0].segments == []
  {
    var cleared := UnmapRange(pageSize, s, start, end - start);
    if !o.allocate then (cleared, false)
    else
      var zeroed := cleared.(user := Splice(cleared.user, start, Zeros(end - start)));
      if !o.mappingNode then (zeroed, false)
      else (zeroed.(mappings := [Mapping(start, end - start, protection, [])] + cleared.mappings), true)
  }

  function CreateMapping(pageSize: nat, s: Shadow, target: nat, length: nat, protection: Protection,
                         o: Outcomes): (r: (Shadow, bool))
    requires pageSize > 0
    requires |s.user| == ADDRESS_SPACE
    requires AllFit(s.mappings, |s.user|, |s.ram|)
    ensures |r.0.user| == |s.user| && |r.0.ram| == |s.ram| && AllFit(r.0.mappings, |s.user|, |s.ram|)
    ensures r.1 ==> |r.0.mappings| > 0 && r.0.mappings[0].segments == []
  {
    var start, end := PageStart(pageSize, target), PageEnd(pageSize, target, length);
    if target == 0 || end == 0 || end <= start then (s, false)
    else CreateAt(pageSize, s, start, end, protection, o)
  }

  function FindOrCreate(pageSize: nat, s: Shadow, target: nat, length: nat, protection: Protection,
                        o: Outcomes): (r: (Shadow, Option<nat>))
    requires pageSize > 0
    requires |s.user| == ADDRESS_SPACE
    requires AllFit(s.mappings, |s.user|, |s.ram|)
    ensures r.1.Some? ==> r.1.value < |r.0.mappings|
    ensures |r.0.user| == |s.user| && |r.0.ram| == |s.ram| && AllFit(r.0.mappings, |s.user|, |s.ram|)
  {
    match FindMapping(s.mappings, target, target + length, protection)
    case Some(k) => (s, Some(k))
    case None =>
      var (created, ok) := CreateMapping(pageSize, s, target, length, protection, o);
      (created, if ok then Some(0) else None)
  }

  function RemoveSegments(s: Shadow, k: nat, lo: nat, hi: nat, copyBack: bool): (r: Shadow)
    requires k < |s.mappings|
    requires AllFit(s.mappings, |s.user|, |s.ram|)
    ensures r.user == s.user && |r.ram| == |s.ram|
  {
    var m := s.mappings[k];
    var ram := if copyBack && m.protection.write then CopyBack(s.user, s.ram, SegmentsHit(m.segments, lo, hi))
               else s.ram;
    Shadow(s.user, ram, s.mappings[k := m.(segments := SegmentsMissed(m.segments, lo, hi))])
  }

  function Image(ram: seq<Byte>, g: Segment, translate: bool): (r: seq<Byte>)
    requires g.source + g.length <= |ram|
    ensures |r| == g.length
  {
    var page := ram[g.source..g.source + g.length];
    if translate then Translate(page) else page
  }

  function CopyIn(s: Shadow, g: Segment, translate: bool): Shadow
    requires g.target + g.length <= |s.user| && g.source + g.length <= |s.ram|
  {
    s.(user := Splice(s.user, g.target, Image(s.ram, g, translate)))
  }

  function AddSegment(s: Shadow, k: nat, g: Segment): Shadow
    requires k < |s.mappings|
  {
    var m := s.mappings[k];
    s.(mappings := s.mappings[k := m.(segments := [g] + m.segments)])
  }

  // ---------------------------------------------------------------- the operations

  /** The guard shared by the mapping operations. */
  predicate BadRange(target: nat, length: nat) {
    target == 0 || length == 0 || target + length >= ADDRESS_SPACE
  }

  /** Replaces a range of mapping `k` by one page. */
  function FillPage(s: Shadow, k: nat, g: Segment, translate: bool, copyBack: bool, o: Outcomes): (Shadow, bool)
    requires k < |s.mappings|
    requires AllFit(s.mappings, |s.user|, |s.ram|)
    requires g.target + g.length <= |s.user| && g.source + g.length <= |s.ram|
  {
    var copied := CopyIn(RemoveSegments(s, k, g.target, g.target + g.length, copyBack), g, translate);
    if o.segmentNodes == 0 then (copied, false)
    else (AddSegment(copied, k, g), o.protect)
  }

  /** `OrlixHostMapShadowUserPages`; true stands for the return value 0. */
  function MapShadowUserPages(pageSize: nat, s: Shadow, g: Segment, protection: Protection, translate: bool,
                              copyBack: bool, o: Outcomes): (Shadow, bool)
    requires pageSize > 0
    requires |s.user| == ADDRESS_SPACE
    requires AllFit(s.mappings, |s.user|, |s.ram|)
    requires g.source + g.length <= |s.ram|
  {
    if BadRange(g.target, g.length) || g.source == 0 then (s, false)
    else
      var (found, at) := FindOrCreate(pageSize, s, g.target, g.length, protection, o);
      if at.None? || !o.unprotect then (found, false)
      else FillPage(found, at.value, g, protection.execute && translate, copyBack, o)
  }

  predicate InputOk(input: PageSegment, target: nat, end: nat) {
    && input.source != 0 && input.length != 0
    && target <= input.target
    && input.target + input.length < ADDRESS_SPACE
    && input.target + input.length <= end
  }

  predicate InputsReadable(inputs: seq<PageSegment>, ramSize: nat) {
    forall x :: x in inputs ==> x.source + x.length <= ramSize
  }

  predicate InputsFit(inputs: seq<PageSegment>, userSize: nat, ramSize: nat) {
    forall x :: x in inputs ==> x.target + x.length <= userSize && x.source + x.length <= ramSize
  }

  function WindowProtection(inputs: seq<PageSegment>): Protection {
    Protection(exists x :: x in inputs && x.writable, exists x :: x in inputs && x.executable)
  }

  function SegmentOf(input: PageSegment): Segment {
    Segment(input.target, input.source, input.length)
  }

  /** The loop that copies the pages of a window in and links their segments. */
  function PlaceAll(s: Shadow, k: nat, inputs: seq<PageSegment>, nodes: nat): (r: (Shadow, bool))
    requires k < |s.mappings|
    requires InputsFit(inputs, |s.user|, |s.ram|)
    requires AllFit(s.mappings, |s.user|, |s.ram|)
    ensures |r.0.mappings| == |s.mappings| && |r.0.user| == |s.user| && r.0.ram == s.ram
    ensures AllFit(r.0.mappings, |r.0.user|, |r.0.ram|)
    decreases |inputs|
  {
    if inputs == [] then (s, true)
    else
      var g := SegmentOf(inputs[0]);
      var copied := CopyIn(s, g, inputs[0].executable);
      if nodes == 0 then (copied, false)
      else
        assert Fits([g] + s.mappings[k].segments, |s.user|, |s.ram|);
        PlaceAll(AddSegment(copied, k, g), k, inputs[1..], nodes - 1)
  }

  /** Replaces a range of mapping `k` by the pages of a window; the mapping goes away when that fails. */
  function FillWindow(pageSize: nat, s: Shadow, k: nat, target: nat, length: nat, inputs: seq<PageSegment>,
                      o: Outcomes): (Shadow, bool)
    requires pageSize > 0 && k < |s.mappings|
    requires AllFit(s.mappings, |s.user|, |s.ram|) && InputsFit(inputs, |s.user|, |s.ram|)
  {
    var m := s.mappings[k];
    var (placed, ok) := PlaceAll(RemoveSegments(s, k, target, target + length, true), k, inputs, o.segmentNodes);
    if ok && o.protect then (placed, true)
    else (UnmapRange(pageSize, placed, m.target, m.length), false)
  }

  /** `orlix_host_user_refresh_window`; true stands for the return value 0. */
  function RefreshWindow(pageSize: nat, s: Shadow, target: nat, length: nat, inputs: seq<PageSegment>,
                         o: Outcomes): (Shadow, bool)
    requires pageSize > 0
    requires |s.user| == ADDRESS_SPACE
    requires AllFit(s.mappings, |s.user|, |s.ram|)
    requires InputsReadable(inputs, |s.ram|)
  {
    if BadRange(target, length) || inputs == []
       || (exists x :: x in inputs && !InputOk(x, target, target + length)) then (s, false)
    else
      var (found, at) := FindOrCreate(pageSize, s, target, length, WindowProtection(inputs), o);
      if at.None? || !o.unprotect then (found, false)
      else FillWindow(pageSize, found, at.value, target, length, inputs, o)
  }

  /** `OrlixHostUserMappingMatches`, whose `target + length` may wrap. */
  predicate Matches(ms: seq<Mapping>, g: Segment, protection: Protection) {
    exists m :: m in ms && m.target <= g.target && (g.target + g.length) % ADDRESS_SPACE <= m.target + m.length
                && m.protection == protection && g in m.segments
  }

  /** `orlix_host_user_map_page`, with its fast path. */
  function MapPage(pageSize: nat, s: Shadow, g: Segment, protection: Protection, o: Outcomes): (Shadow, bool)
    requires pageSize > 0
    requires |s.user| == ADDRESS_SPACE
    requires AllFit(s.mappings, |s.user|, |s.ram|)
    requires g.source + g.length <= |s.ram|
  {
    if !protection.execute && Matches(s.mappings, g, protection) then (s, true)
    else MapShadowUserPages(pageSize, s, g, protection, true, true, o)
  }

  /** `orlix_host_user_sync_writable_mappings`. */
  function Sync(s: Shadow): Shadow
    requires AllFit(s.mappings, |s.user|, |s.ram|)
  {
    s.(ram := Flush(s.user, s.ram, s.mappings))
  }

  /** A store instruction of the user process; the host faults unless a writable mapping covers it. */
  function UserStore(s: Shadow, address: nat, value: Byte): Shadow
    requires address < |s.user|
  {
    if exists m :: m in s.mappings && m.protection.write && m.Hits(address, address + 1)
    then s.(user := s.user[address := value])
    else s
  }
}
