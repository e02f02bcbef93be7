/**
 Whole runs of the user shadow. Over every run in reach mappings and segments keep their shape; over the
 runs whose operations lose or invent no byte, the logical memory changes by the stores and by nothing else.
 */
module ShadowRuns {
  import opened HostTypes
  import opened Slices
  import opened Translation
  import opened ShadowModel
  import opened ShadowShape
  import opened ShadowProofs
  import opened ShadowTheorems
  import opened KernelStore

  /** `LinuxWrite` is a store to a source page; `KernelWrite` also refreshes the user page that shows it. */
  datatype Op =
    | UserWrite(address: nat, value: Byte)
    | LinuxWrite(at: nat, bytes: seq<Byte>)
    | SyncAll
    | MapOne(page: Segment, protection: Protection, o: Outcomes)
    | MapTrusted(page: Segment, o: Outcomes)
    | MapWindow(target: nat, length: nat, inputs: seq<PageSegment>, o: Outcomes)
    | UnmapUser(target: nat, length: nat)
    | KernelWrite(page: Segment, protection: Protection, at: nat, bytes: seq<Byte>, o: Outcomes)

  const TRUSTED := Protection(false, true)

  /** Addresses exist, and nothing is mapped in the first host page. */
  ghost predicate InReach(pageSize: nat, s: Shadow, op: Op) {
    match op
    case UserWrite(address, _) => address < |s.user|
    case LinuxWrite(at, bytes) => at + |bytes| <= |s.ram|
    case SyncAll => true
    case MapOne(page, _, _) => PageInReach(pageSize, s, page)
    case MapTrusted(page, _) => PageInReach(pageSize, s, page)
    case MapWindow(target, length, inputs, _) => WindowInReach(pageSize, s, target, length, inputs)
    case UnmapUser(_, _) => true
    case KernelWrite(page, _, at, bytes, _) => PageInReach(pageSize, s, page) && at + |bytes| <= |s.ram|
  }

  /** What the callers must respect, beside reach, for the operation not to lose or invent bytes. */
  ghost predicate Allowed(pageSize: nat, s: Shadow, op: Op)
    requires DirtyFits(s)
  {
    && InReach(pageSize, s, op)
    && match op
       case LinuxWrite(at, bytes) =>
         forall h :: h in Dirty(s.mappings) ==> h.source + h.length <= at || at + |bytes| <= h.source
       case MapOne(page, protection, _) => MayMap(pageSize, s, page, protection, true)
       case MapWindow(target, length, inputs, _) => MayRefresh(pageSize, s, target, length, inputs)
       case KernelWrite(page, protection, at, bytes, o) =>
         && o.unprotect && !(protection.write && protection.execute)
         && Synced(s) && MayStore(pageSize, s, page, at, bytes)
         && FindMapping(s.mappings, page.target, page.target + page.length, protection).Some?
       case _ => true
  }

  ghost predicate Ready(s: Shadow) {
    |s.user| == ADDRESS_SPACE && AllFit(s.mappings, |s.user|, |s.ram|)
  }

  ghost function Step(pageSize: nat, s: Shadow, op: Op): Shadow
    requires pageSize > 0 && Ready(s) && InReach(pageSize, s, op)
  {
    match op
    case UserWrite(address, value) => UserStore(s, address, value)
    case LinuxWrite(at, bytes) => Written(s, at, bytes)
    case SyncAll => Sync(s)
    case MapOne(page, protection, o) => MapPage(pageSize, s, page, protection, o).0
    case MapTrusted(page, o) => MapShadowUserPages(pageSize, s, page, TRUSTED, false, true, o).0
    case MapWindow(target, length, inputs, o) => RefreshWindow(pageSize, s, target, length, inputs, o).0
    case UnmapUser(target, length) => UnmapRange(pageSize, s, target, length)
    case KernelWrite(page, protection, at, bytes, o) =>
      RefreshPage(pageSize, Written(s, at, bytes), page, protection, o).0
  }

  /** `Step`, made total so that a run can be written without assuming the shape it is to keep. */
  ghost function Next(pageSize: nat, s: Shadow, op: Op): Shadow
    requires pageSize > 0
  {
    if Ready(s) && InReach(pageSize, s, op) then Step(pageSize, s, op) else s
  }

  ghost function Run(pageSize: nat, s: Shadow, ops: seq<Op>): Shadow
    requires pageSize > 0
    decreases |ops|
  {
    if ops == [] then s else Run(pageSize, Next(pageSize, s, ops[0]), ops[1..])
  }

  // ---------------------------------------------------------------- shape

  /** Every operation is in reach in the state it meets. */
  ghost predicate RunInReach(pageSize: nat, s: Shadow, ops: seq<Op>)
    requires pageSize > 0
    decreases |ops|
  {
    ops != [] ==> InReach(pageSize, s, ops[0]) && RunInReach(pageSize, Next(pageSize, s, ops[0]), ops[1..])
  }

  lemma StepShape(pageSize: nat, s: Shadow, op: Op)
    requires IsPageSize(pageSize) && WellFormed(pageSize, s) && InReach(pageSize, s, op)
    ensures Ready(s) && KeepsShape(pageSize, s, Step(pageSize, s, op))
  {
    WellFormedFits(pageSize, s);
    match op
    case MapOne(page, protection, o) => MapShadowShape(pageSize, s, page, protection, true, true, o);
    case MapTrusted(page, o) => MapShadowShape(pageSize, s, page, TRUSTED, false, true, o);
    case MapWindow(target, length, inputs, o) => RefreshWindowShape(pageSize, s, target, length, inputs, o);
    case UnmapUser(target, length) => UnmapShape(pageSize, s, target, length);
    case KernelWrite(page, protection, at, bytes, o) =>
      MapShadowShape(pageSize, Written(s, at, bytes), page, protection, true, false, o);
    case _ =>
  }

  /**
   Over any run mappings stay host-page aligned and disjoint, and segments inside their mapping and
   disjoint: with aliased sources, rewritten code, changed protections and every answer of the host.
   */
  lemma {:induction false} RunKeepsShape(pageSize: nat, s: Shadow, ops: seq<Op>)
    requires IsPageSize(pageSize) && WellFormed(pageSize, s) && RunInReach(pageSize, s, ops)
    ensures KeepsShape(pageSize, s, Run(pageSize, s, ops))
    decreases |ops|
  {
    if ops != [] {
      StepShape(pageSize, s, ops[0]);
      hide Step, InReach, WellFormed;
      RunKeepsShape(pageSize, Next(pageSize, s, ops[0]), ops[1..]);
    }
  }

  /** After any run each user address is shown by at most one segment of one mapping. */
  lemma RunShowsOnce(pageSize: nat, s: Shadow, ops: seq<Op>, m: Mapping, g: Segment, n: Mapping, h: Segment, a: nat)
    requires IsPageSize(pageSize) && WellFormed(pageSize, s) && RunInReach(pageSize, s, ops)
    requires m in Run(pageSize, s, ops).mappings && n in Run(pageSize, s, ops).mappings
    requires g in m.segments && h in n.segments && g.Hits(a, a + 1) && h.Hits(a, a + 1)
    ensures m == n && g == h
  {
    RunKeepsShape(pageSize, s, ops);
    TargetsApart(pageSize, Run(pageSize, s, ops), m, g, n, h, a);
  }

  // ---------------------------------------------------------------- logical memory

  datatype Store = Store(at: nat, bytes: seq<Byte>)

  /** The stores an operation performs on logical memory: the only ones are explicit writes. */
  ghost function Stores(s: Shadow, op: Op): seq<Store> {
    match op
    case UserWrite(address, value) =>
      if exists g :: g in Dirty(s.mappings) && g.Hits(address, address + 1)
      then
        var g :| g in Dirty(s.mappings) && g.Hits(address, address + 1);
        [Store(g.source + (address - g.target), [value])]
      else []
    case LinuxWrite(at, bytes) => [Store(at, bytes)]
    case KernelWrite(_, _, at, bytes, _) => [Store(at, bytes)]
    case _ => []
  }

  ghost function Replay(memory: seq<Byte>, stores: seq<Store>): (r: seq<Byte>)
    ensures |r| == |memory|
    decreases |stores|
  {
    if stores == [] then memory
    else if stores[0].at + |stores[0].bytes| <= |memory|
    then Replay(Splice(memory, stores[0].at, stores[0].bytes), stores[1..])
    else Replay(memory, stores[1..])
  }

  lemma ReplayNothing(memory: seq<Byte>)
    ensures Replay(memory, []) == memory
  {
  }

  lemma ReplayByte(memory: seq<Byte>, at: nat, value: Byte)
    requires at < |memory|
    ensures Replay(memory, [Store(at, [value])]) == memory[at := value]
  {
    ReplayOne(memory, Store(at, [value]));
    assert Splice(memory, at, [value]) == memory[at := value];
  }

  lemma ReplayOne(memory: seq<Byte>, store: Store)
    requires store.at + |store.bytes| <= |memory|
    ensures Replay(memory, [store]) == Splice(memory, store.at, store.bytes)
  {
    assert Replay(Splice(memory, store.at, store.bytes), [store][1..]) == Splice(memory, store.at, store.bytes);
  }

  lemma {:induction false} ReplayAppend(memory: seq<Byte>, first: seq<Store>, second: seq<Store>)
    ensures Replay(memory, first + second) == Replay(Replay(memory, first), second)
    decreases |first|
  {
    if first == [] {
      assert first + second == second;
    } else {
      assert (first + second)[1..] == first[1..] + second;
      var next := if first[0].at + |first[0].bytes| <= |memory| then Splice(memory, first[0].at, first[0].bytes)
          else memory;
      ReplayAppend(next, first[1..], second);
    }
  }

  lemma UserWriteKeeps(pageSize: nat, s: Shadow, address: nat, value: Byte)
    requires pageSize > 0 && Inv(pageSize, s) && address < |s.user|
    ensures DirtyFits(s) && Inv(pageSize, UserStore(s, address, value)) && DirtyFits(UserStore(s, address, value))
    ensures Logical(UserStore(s, address, value)) == Replay(Logical(s), Stores(s, UserWrite(address, value)))
  {
    StoreKeeps(pageSize, s, address, value);
    hide WellFormed, Unaliased, Logical, Dirty, Replay, StoreEffect, Inv, DirtyFits;
    if exists g :: g in Dirty(s.mappings) && g.Hits(address, address + 1) {
      var store := Stores(s, UserWrite(address, value))[0];
      var g :| g in Dirty(s.mappings) && g.Hits(address, address + 1)
               && store == Store(g.source + (address - g.target), [value]);
      StoreEffectAt(pageSize, s, address, value, g);
      assert Stores(s, UserWrite(address, value)) == [store];
      ReplayByte(Logical(s), store.at, value);
    } else {
      ReplayNothing(Logical(s));
    }
  }

  lemma MapOneKeeps(pageSize: nat, s: Shadow, page: Segment, protection: Protection, o: Outcomes)
    requires IsPageSize(pageSize) && Inv(pageSize, s) && DirtyFits(s) && MayMap(pageSize, s, page, protection, true)
    ensures AllFit(s.mappings, |s.user|, |s.ram|)
    ensures Preserves(pageSize, s, MapPage(pageSize, s, page, protection, o).0)
  {
    MapShadowKeeps(pageSize, s, page, protection, true, o);
  }

  /** A store to source bytes that no writable segment shows. */
  lemma LinuxWriteKeeps(pageSize: nat, s: Shadow, at: nat, bytes: seq<Byte>)
    requires pageSize > 0 && Inv(pageSize, s) && at + |bytes| <= |s.ram|
    requires forall h :: h in Dirty(s.mappings) ==> h.source + h.length <= at || at + |bytes| <= h.source
    ensures Inv(pageSize, Written(s, at, bytes)) && DirtyFits(s) && DirtyFits(Written(s, at, bytes))
    ensures Logical(Written(s, at, bytes)) == Splice(Logical(s), at, bytes)
  {
    WrittenInv(pageSize, s, at, bytes);
    var r := Written(s, at, bytes);
    forall p | 0 <= p < |s.ram|
      ensures Logical(r)[p] == Splice(Logical(s), at, bytes)[p]
    {
      if h :| h in Dirty(s.mappings) && h.Mirrors(p) {
        LogicalAt(s.user, s.ram, Dirty(s.mappings), h, p);
        LogicalAt(r.user, r.ram, Dirty(r.mappings), h, p);
      } else {
        LogicalElsewhere(s.user, s.ram, Dirty(s.mappings), p);
        LogicalElsewhere(r.user, r.ram, Dirty(r.mappings), p);
      }
    }
  }

  /** One operation keeps the invariant and changes the logical memory by its stores only. */
  lemma StepKeeps(pageSize: nat, s: Shadow, op: Op)
    requires IsPageSize(pageSize) && Inv(pageSize, s) && DirtyFits(s) && Allowed(pageSize, s, op)
    ensures Ready(s)
    ensures var r := Step(pageSize, s, op);
            Inv(pageSize, r) && DirtyFits(r) && Logical(r) == Replay(Logical(s), Stores(s, op))
  {
    WellFormedFits(pageSize, s);
    match op
    case UserWrite(address, value) => UserWriteKeeps(pageSize, s, address, value);
    case LinuxWrite(at, bytes) =>
      LinuxWriteKeeps(pageSize, s, at, bytes);
      ReplayOne(Logical(s), Store(at, bytes));
    case SyncAll => SyncKeeps(pageSize, s);
    case MapOne(page, protection, o) => MapOneKeeps(pageSize, s, page, protection, o);
    case MapTrusted(page, o) => MapShadowKeeps(pageSize, s, page, TRUSTED, false, o);
    case MapWindow(target, length, inputs, o) => RefreshWindowKeeps(pageSize, s, target, length, inputs, o);
    case UnmapUser(target, length) => UnmapKeeps(pageSize, s, target, length);
    case KernelWrite(page, protection, at, bytes, o) =>
      StoreSurvivesExactly(pageSize, s, page, protection, at, bytes, o);
      ReplayOne(Logical(s), Store(at, bytes));
  }

  /** Every operation is allowed in the state it meets. */
  ghost predicate AllowedRun(pageSize: nat, s: Shadow, ops: seq<Op>)
    requires pageSize > 0
    decreases |ops|
  {
    ops != [] ==>
      && (DirtyFits(s) ==> Allowed(pageSize, s, ops[0]))
      && AllowedRun(pageSize, Next(pageSize, s, ops[0]), ops[1..])
  }

  ghost function RunStores(pageSize: nat, s: Shadow, ops: seq<Op>): seq<Store>
    requires pageSize > 0
    decreases |ops|
  {
    if ops == [] then [] else Stores(s, ops[0]) + RunStores(pageSize, Next(pageSize, s, ops[0]), ops[1..])
  }

  /** No store is lost and none is invented, and mappings stay aligned, disjoint and filled, over any run. */
  lemma {:induction false} RunKeepsLogical(pageSize: nat, s: Shadow, ops: seq<Op>)
    requires IsPageSize(pageSize) && Inv(pageSize, s) && AllowedRun(pageSize, s, ops)
    ensures DirtyFits(s)
    ensures var r := Run(pageSize, s, ops);
            Inv(pageSize, r) && DirtyFits(r) && Logical(r) == Replay(Logical(s), RunStores(pageSize, s, ops))
    decreases |ops|
  {
    WellFormedFits(pageSize, s);
    if ops != [] {
      var next := Next(pageSize, s, ops[0]);
      StepKeeps(pageSize, s, ops[0]);
      hide Step, Inv, Logical, Allowed;
      RunKeepsLogical(pageSize, next, ops[1..]);
      ReplayAppend(Logical(s), Stores(s, ops[0]), RunStores(pageSize, next, ops[1..]));
    }
  }

  /** A sync at the end of any run leaves exactly the replayed stores in the source pages. */
  lemma SyncAfterRun(pageSize: nat, s: Shadow, ops: seq<Op>)
    requires IsPageSize(pageSize) && Inv(pageSize, s) && AllowedRun(pageSize, s, ops)
    ensures DirtyFits(s)
    ensures var r := Run(pageSize, s, ops);
            AllFit(r.mappings, |r.user|, |r.ram|) && Sync(r).ram == Replay(Logical(s), RunStores(pageSize, s, ops))
  {
    RunKeepsLogical(pageSize, s, ops);
    SyncKeeps(pageSize, Run(pageSize, s, ops));
  }
}
