/** Copies between kernel and user memory, one page at a time through the page table (arch/orlix/mm/uaccess.c). */
module UserCopy {
  import opened HostTypes
  import opened Slices
  import opened Arithmetic

  const PAGE_SIZE: nat := 4096

  datatype Pte = Pte(frame: nat, present: bool, user: bool, write: bool)

  /** Page tables by virtual page number; a missing level is a missing entry. */
  type PageTable = map<nat, Pte>

  /** What a copy meets at one page: a fault may change the table, and the kernel mapping refresh may fail. */
  datatype Visit = Visit(before: PageTable, faulted: bool, after: PageTable, synced: bool)

  /** `orlix_uaccess_resolve`: the frame, if the page may be accessed. */
  function Resolve(table: PageTable, address: nat, write: bool): Option<nat> {
    var page := address / PAGE_SIZE;
    if page !in table || !table[page].present || !table[page].user then None
    else if write && !table[page].write then None
    else Some(table[page].frame)
  }

  /** The frame used at a visit: resolved at once, or after a fault. */
  function FrameAt(v: Visit, address: nat, write: bool): Option<nat> {
    var first := Resolve(v.before, address, write);
    if first.Some? then first
    else if !v.faulted then None
    else Resolve(v.after, address, write)
  }

  /** `__va` of the frame, at the offset in the page. */
  function PhysicalAt(v: Visit, address: nat, write: bool): Option<nat> {
    match FrameAt(v, address, write)
    case None => None
    case Some(frame) => Some(frame * PAGE_SIZE + address % PAGE_SIZE)
  }

  // ---------------------------------------------------------------- one byte at a time

  /** Address of byte `i`; `unsigned long` arithmetic. */
  function AddressOf(start: nat, i: nat): nat {
    (start + i) % ADDRESS_SPACE
  }

  /** Which page visit of the copy byte `i` belongs to. */
  function VisitOf(start: nat, i: nat): nat {
    (start % PAGE_SIZE + i) / PAGE_SIZE
  }

  /** The `k`-th page the copy comes to; behind the end of the list nothing is mapped. */
  function VisitAt(visits: seq<Visit>, k: nat): Visit {
    if k < |visits| then visits[k] else Visit(map[], false, map[], false)
  }

  /** Physical address of byte `i`. */
  function Physical(visits: seq<Visit>, start: nat, i: nat, write: bool): Option<nat> {
    PhysicalAt(VisitAt(visits, VisitOf(start, i)), AddressOf(start, i), write)
  }

  ghost predicate FramesInRam(visits: seq<Visit>, ramSize: nat) {
    forall k, page :: 0 <= k < |visits| ==>
      && (page in visits[k].before ==> (visits[k].before[page].frame + 1) * PAGE_SIZE <= ramSize)
      && (page in visits[k].after ==> (visits[k].after[page].frame + 1) * PAGE_SIZE <= ramSize)
  }

  /** The first `n` bytes can be reached, and lie in memory. */
  ghost predicate Mapped(visits: seq<Visit>, start: nat, n: nat, write: bool, ramSize: nat) {
    forall i: nat :: i < n ==>
        Physical(visits, start, i, write).Some? && Physical(visits, start, i, write).value < ramSize
  }

  /** `n` bytes read one by one. */
  ghost function BytesFrom(ram: seq<Byte>, visits: seq<Visit>, start: nat, n: nat): (r: seq<Byte>)
    requires Mapped(visits, start, n, false, |ram|)
    ensures |r| == n
  {
    if n == 0 then [] else BytesFrom(ram, visits, start, n - 1) + [ram[Physical(visits, start, n - 1, false).value]]
  }

  /** Memory after `n` bytes were stored one by one. */
  ghost function StoreBytes(ram: seq<Byte>, visits: seq<Visit>, start: nat, bytes: seq<Byte>, n: nat): (r: seq<Byte>)
    requires n <= |bytes| && Mapped(visits, start, n, true, |ram|)
    ensures |r| == |ram|
  {
    if n == 0 then ram
    else StoreBytes(ram, visits, start, bytes, n - 1)[Physical(visits, start, n - 1, true).value := bytes[n - 1]]
  }

  // ---------------------------------------------------------------- one page at a time

  /** The source of a `memcpy`. */
  function Piece(s: seq<Byte>, at: nat, n: nat): (r: seq<Byte>)
    requires at + n <= |s|
    ensures |r| == n
  {
    s[at..at + n]
  }

  /** `min(remaining, PAGE_SIZE - offset_in_page(address))`. */
  function ChunkAt(address: nat, remaining: nat): (r: nat)
    requires remaining > 0
    ensures 0 < r <= remaining && r <= PAGE_SIZE
  {
    var room := PAGE_SIZE - address % PAGE_SIZE;
    if remaining < room then remaining else room
  }

  /** Bytes of the chunk that starts at byte `done`. */
  function Chunk(start: nat, done: nat, n: nat): (r: nat)
    requires done < n
    ensures 0 < r <= n - done && r <= PAGE_SIZE
  {
    ChunkAt(AddressOf(start, done), n - done)
  }

  /** The bytes of a chunk share the page visit, and their physical addresses follow each other. */
  lemma InChunk(visits: seq<Visit>, start: nat, done: nat, n: nat, j: nat, write: bool)
    requires done < n && j < Chunk(start, done, n)
    ensures VisitOf(start, done + j) == VisitOf(start, done)
    ensures AddressOf(start, done + j) == AddressOf(start, done) + j
    ensures match Physical(visits, start, done, write)
            case None => Physical(visits, start, done + j, write) == None
            case Some(p) => Physical(visits, start, done + j, write) == Some(p + j)
  {
    var a := AddressOf(start, done);
    SameOffset(start, done);
    assert a % PAGE_SIZE + j < PAGE_SIZE;
    WithinPage(start % PAGE_SIZE + done, j);
    WithinPage(a, j);
    NoWrap(a, j);
    NextAddress(start, done, j);
  }

  lemma NextAddress(start: nat, done: nat, chunk: nat)
    ensures AddressOf(AddressOf(start, done), chunk) == AddressOf(start, done + chunk)
  {
  }

  lemma SameOffset(start: nat, i: nat)
    ensures AddressOf(start, i) % PAGE_SIZE == (start % PAGE_SIZE + i) % PAGE_SIZE
  {
  }

  lemma WithinPage(x: nat, j: nat)
    requires x % PAGE_SIZE + j < PAGE_SIZE
    ensures (x + j) / PAGE_SIZE == x / PAGE_SIZE && (x + j) % PAGE_SIZE == x % PAGE_SIZE + j
  {
  }

  lemma NoWrap(a: nat, j: nat)
    requires a < ADDRESS_SPACE && a % PAGE_SIZE + j < PAGE_SIZE
    ensures a + j < ADDRESS_SPACE
  {
  }

  lemma ChunkInRam(visits: seq<Visit>, ramSize: nat, start: nat, done: nat, n: nat, write: bool)
    requires FramesInRam(visits, ramSize) && done < n
    ensures Physical(visits, start, done, write).Some? ==>
              Physical(visits, start, done, write).value + Chunk(start, done, n) <= ramSize
  {
  }

  lemma MapChunk(visits: seq<Visit>, ramSize: nat, start: nat, done: nat, n: nat, m: nat, write: bool)
    requires FramesInRam(visits, ramSize) && done < n && m <= Chunk(start, done, n)
    requires Mapped(visits, start, done, write, ramSize) && Physical(visits, start, done, write).Some?
    ensures Mapped(visits, start, done + m, write, ramSize)
  {
    ChunkInRam(visits, ramSize, start, done, n, write);
    forall i: nat | i < done + m
      ensures Physical(visits, start, i, write).Some? && Physical(visits, start, i, write).value < ramSize
    {
      if i >= done {
        InChunk(visits, start, done, n, i - done, write);
      }
    }
  }

  /** One `memcpy` out of a page reads the bytes the loop over bytes would read. */
  lemma {:induction false} ReadChunk(ram: seq<Byte>, visits: seq<Visit>, start: nat, done: nat, n: nat, m: nat)
    requires FramesInRam(visits, |ram|) && done < n && m <= Chunk(start, done, n)
    requires Mapped(visits, start, done, false, |ram|) && Physical(visits, start, done, false).Some?
    ensures Mapped(visits, start, done + m, false, |ram|)
    ensures var p := Physical(visits, start, done, false).value;
            p + m <= |ram|
            && BytesFrom(ram, visits, start, done + m) == BytesFrom(ram, visits, start, done) + Piece(ram, p, m)
  {
    hide Physical, FramesInRam, Chunk;
    ChunkInRam(visits, |ram|, start, done, n, false);
    MapChunk(visits, |ram|, start, done, n, m, false);
    if m > 0 {
      ReadChunk(ram, visits, start, done, n, m - 1);
      InChunk(visits, start, done, n, m - 1, false);
    }
  }

  lemma SpliceNext(ram: seq<Byte>, p: nat, bytes: seq<Byte>, done: nat, m: nat)
    requires m > 0 && done + m <= |bytes| && p + m <= |ram|
    ensures Splice(ram, p, Piece(bytes, done, m))
          == Splice(ram, p, Piece(bytes, done, m - 1))[p + (m - 1) := bytes[done + (m - 1)]]
  {
  }

  lemma SpliceNone(ram: seq<Byte>, p: nat, none: seq<Byte>)
    requires p <= |ram| && none == []
    ensures Splice(ram, p, none) == ram
  {
  }

  /** One `memcpy` into a page stores what the loop over bytes would store. */
  lemma {:induction false} StoreChunk(ram: seq<Byte>, visits: seq<Visit>, start: nat, bytes: seq<Byte>, done: nat,
                                      n: nat, m: nat)
    requires FramesInRam(visits, |ram|) && done < n <= |bytes| && m <= Chunk(start, done, n)
    requires Mapped(visits, start, done, true, |ram|) && Physical(visits, start, done, true).Some?
    ensures Mapped(visits, start, done + m, true, |ram|)
    ensures var p := Physical(visits, start, done, true).value;
            && p + m <= |ram|
            && StoreBytes(ram, visits, start, bytes, done + m)
            == Splice(StoreBytes(ram, visits, start, bytes, done), p, Piece(bytes, done, m))
  {
    hide Physical, FramesInRam, Chunk, Splice, Piece;
    ChunkInRam(visits, |ram|, start, done, n, true);
    MapChunk(visits, |ram|, start, done, n, m, true);
    if m > 0 {
      StoreChunk(ram, visits, start, bytes, done, n, m - 1);
      InChunk(visits, start, done, n, m - 1, true);
      SpliceNext(StoreBytes(ram, visits, start, bytes, done), Physical(visits, start, done, true).value, bytes, done,
                 m);
    } else {
      SpliceNone(StoreBytes(ram, visits, start, bytes, done), Physical(visits, start, done, true).value,
                 Piece(bytes, done, 0));
    }
  }

  // ---------------------------------------------------------------- the copies

  /** Byte `i` is stored, and its page is then refreshed in the user mapping. */
  predicate Arrives(visits: seq<Visit>, start: nat, i: nat) {
    Physical(visits, start, i, true).Some? && VisitAt(visits, VisitOf(start, i)).synced
  }

  /** Bytes in memory when a store of `n` bytes stops with `remaining` left: a failed refresh comes after its chunk. */
  function Stored(mm: bool, visits: seq<Visit>, start: nat, n: nat, remaining: nat): (r: nat)
    requires remaining <= n
    ensures mm ==> n - remaining <= r <= n && r <= n - remaining + PAGE_SIZE
  {
    if !mm then 0
    else if remaining > 0 && Physical(visits, start, n - remaining, true).Some?
        then n - remaining + Chunk(start, n - remaining, n)
    else n - remaining
  }

  /** `remaining` is right for a store: the bytes before arrive, the next one does not. */
  ghost predicate StopsRight(mm: bool, visits: seq<Visit>, start: nat, n: nat, remaining: nat) {
    && remaining <= n
    && (mm ==> forall i: nat :: i < n - remaining ==> Arrives(visits, start, i))
    && (mm && remaining > 0 ==> !Arrives(visits, start, n - remaining))
    && (!mm ==> remaining == n)
  }

  /** The refresh comes at the end of a chunk, so no byte of a chunk arrives without the others. */
  lemma ArriveTogether(visits: seq<Visit>, start: nat, done: nat, n: nat, j: nat)
    requires done < n && j < Chunk(start, done, n)
    ensures Arrives(visits, start, done + j) == Arrives(visits, start, done)
  {
    InChunk(visits, start, done, n, j, true);
  }

  lemma SpliceFront(front: seq<Byte>, s: seq<Byte>, bytes: seq<Byte>)
    requires |front| + |bytes| <= |s|
    ensures Splice(front + s[|front|..], |front|, bytes) == (front + bytes) + s[|front + bytes|..]
  {
  }

  /** The loop that reads, with `remaining` of `n` bytes to go: what was read replaces the front of the destination. */
  ghost predicate Reading(before: seq<Byte>, to: seq<Byte>, ram: seq<Byte>, visits: seq<Visit>, start: nat, n: nat,
                          remaining: nat, address: nat) {
    && remaining <= n <= |before| == |to| && address == AddressOf(start, n - remaining)
    && Mapped(visits, start, n - remaining, false, |ram|)
    && to == BytesFrom(ram, visits, start, n - remaining) + before[n - remaining..]
  }

  /** What a read that returns `remaining` has done: the first bytes are exact, the others keep their value. */
  ghost predicate ReadResult(mm: bool, before: seq<Byte>, to: seq<Byte>, ram: seq<Byte>, visits: seq<Visit>,
                             start: nat, n: nat, remaining: nat) {
    && remaining <= n <= |before| == |to| && Mapped(visits, start, n - remaining, false, |ram|)
    && to == BytesFrom(ram, visits, start, n - remaining) + before[n - remaining..]
    && (if mm then remaining > 0 ==> Physical(visits, start, n - remaining, false) == None else remaining == n)
  }

  lemma ReadStarts(to: seq<Byte>, ram: seq<Byte>, visits: seq<Visit>, start: nat, n: nat)
    requires start < ADDRESS_SPACE && n <= |to|
    ensures ReadResult(false, to, to, ram, visits, start, n, n) && Reading(to, to, ram, visits, start, n, n, start)
  {
  }

  lemma ReadEnds(before: seq<Byte>, to: seq<Byte>, ram: seq<Byte>, visits: seq<Visit>, start: nat, n: nat,
                 remaining: nat, address: nat)
    requires Reading(before, to, ram, visits, start, n, remaining, address)
    requires remaining > 0 ==> PhysicalAt(VisitAt(visits, VisitOf(start, n - remaining)), address, false) == None
    ensures ReadResult(true, before, to, ram, visits, start, n, remaining)
  {
  }

  lemma ReadFits(before: seq<Byte>, to: seq<Byte>, ram: seq<Byte>, visits: seq<Visit>, start: nat, n: nat,
                 remaining: nat, address: nat, p: nat)
    requires FramesInRam(visits, |ram|) && remaining > 0
    requires Reading(before, to, ram, visits, start, n, remaining, address)
    requires PhysicalAt(VisitAt(visits, VisitOf(start, n - remaining)), address, false) == Some(p)
    ensures p + ChunkAt(address, remaining) <= |ram|
  {
    ChunkInRam(visits, |ram|, start, n - remaining, n, false);
  }

  lemma ReadStep(before: seq<Byte>, to: seq<Byte>, ram: seq<Byte>, visits: seq<Visit>, start: nat, n: nat,
                 remaining: nat, address: nat,
                 p: nat, chunk: nat, after: seq<Byte>)
    requires FramesInRam(visits, |ram|) && remaining > 0
    requires Reading(before, to, ram, visits, start, n, remaining, address)
    requires PhysicalAt(VisitAt(visits, VisitOf(start, n - remaining)), address, false) == Some(p)
    requires chunk == ChunkAt(address, remaining) && p + chunk <= |ram|
    requires after == Splice(to, n - remaining, Piece(ram, p, chunk))
    ensures Reading(before, after, ram, visits, start, n, remaining - chunk, AddressOf(address, chunk))
  {
    hide FramesInRam, AddressOf, VisitAt, VisitOf, PhysicalAt, ChunkAt, BytesFrom, Splice, Mapped, Piece;
    var done := n - remaining;
    ReadChunk(ram, visits, start, done, n, chunk);
    SpliceFront(BytesFrom(ram, visits, start, done), before, Piece(ram, p, chunk));
    NextAddress(start, done, chunk);
  }

  /** Memory holds the first `n` bytes of the store. */
  ghost predicate StoredUpTo(before: seq<Byte>, after: seq<Byte>, visits: seq<Visit>, start: nat, bytes: seq<Byte>,
                             n: nat)
  {
    n <= |bytes| && Mapped(visits, start, n, true, |before|) && after == StoreBytes(before, visits, start, bytes, n)
  }

  /** The loop that stores, with `remaining` bytes to go. */
  ghost predicate Storing(before: seq<Byte>, ram: seq<Byte>, visits: seq<Visit>, start: nat, bytes: seq<Byte>,
                          remaining: nat, address: nat) {
    && |ram| == |before| && remaining <= |bytes| && address == AddressOf(start, |bytes| - remaining)
    && StoredUpTo(before, ram, visits, start, bytes, |bytes| - remaining)
    && forall i: nat :: i < |bytes| - remaining ==> Arrives(visits, start, i)
  }

  /** What a store that returns `remaining` has done. */
  ghost predicate StoreResult(mm: bool, before: seq<Byte>, after: seq<Byte>, visits: seq<Visit>, start: nat,
                              bytes: seq<Byte>, remaining: nat) {
    && |after| == |before| && StopsRight(mm, visits, start, |bytes|, remaining)
    && StoredUpTo(before, after, visits, start, bytes, Stored(mm, visits, start, |bytes|, remaining))
  }

  lemma StoreStarts(ram: seq<Byte>, visits: seq<Visit>, start: nat, bytes: seq<Byte>)
    requires start < ADDRESS_SPACE
    ensures StoreResult(false, ram, ram, visits, start, bytes, |bytes|)
    ensures Storing(ram, ram, visits, start, bytes, |bytes|, start)
  {
  }

  lemma StoreEnds(before: seq<Byte>, ram: seq<Byte>, visits: seq<Visit>, start: nat, bytes: seq<Byte>, address: nat)
    requires Storing(before, ram, visits, start, bytes, 0, address)
    ensures StoreResult(true, before, ram, visits, start, bytes, 0)
  {
  }

  lemma StoreBlocked(before: seq<Byte>, ram: seq<Byte>, visits: seq<Visit>, start: nat, bytes: seq<Byte>,
                     remaining: nat, address: nat)
    requires 0 < remaining <= |bytes| && Storing(before, ram, visits, start, bytes, remaining, address)
    requires PhysicalAt(VisitAt(visits, VisitOf(start, |bytes| - remaining)), address, true) == None
    ensures StoreResult(true, before, ram, visits, start, bytes, remaining)
  {
  }

  lemma StoreFits(before: seq<Byte>, ram: seq<Byte>, visits: seq<Visit>, start: nat, bytes: seq<Byte>, remaining: nat,
                  address: nat, p: nat)
    requires FramesInRam(visits, |before|) && 0 < remaining <= |bytes|
    requires Storing(before, ram, visits, start, bytes, remaining, address)
    requires PhysicalAt(VisitAt(visits, VisitOf(start, |bytes| - remaining)), address, true) == Some(p)
    ensures p + ChunkAt(address, remaining) <= |ram|
  {
    ChunkInRam(visits, |before|, start, |bytes| - remaining, |bytes|, true);
  }

  /** The chunk is in memory; the loop goes on when its page is refreshed. */
  lemma StoreStep(before: seq<Byte>, ram: seq<Byte>, visits: seq<Visit>, start: nat, bytes: seq<Byte>, remaining: nat,
                  address: nat,
                  p: nat, chunk: nat, after: seq<Byte>)
    requires FramesInRam(visits, |before|) && 0 < remaining <= |bytes|
    requires Storing(before, ram, visits, start, bytes, remaining, address)
    requires PhysicalAt(VisitAt(visits, VisitOf(start, |bytes| - remaining)), address, true) == Some(p)
    requires chunk == ChunkAt(address, remaining) && p + chunk <= |ram|
    requires after == Splice(ram, p, Piece(bytes, |bytes| - remaining, chunk))
    ensures if VisitAt(visits, VisitOf(start, |bytes| - remaining)).synced
            then Storing(before, after, visits, start, bytes, remaining - chunk, AddressOf(address, chunk))
            else StoreResult(true, before, after, visits, start, bytes, remaining)
  {
    hide FramesInRam, StoreBytes, Mapped, AddressOf, VisitAt, VisitOf, PhysicalAt, ChunkAt, Splice;
    var done := |bytes| - remaining;
    StoreChunk(before, visits, start, bytes, done, |bytes|, chunk);
    forall i: nat | done <= i < done + chunk
      ensures Arrives(visits, start, i) == Arrives(visits, start, done)
    {
      ArriveTogether(visits, start, done, |bytes|, i - done);
    }
    NextAddress(start, done, chunk);
  }

  // ---------------------------------------------------------------- clearing

  function Zeros(n: nat): (r: seq<Byte>)
    ensures |r| == n
  {
    seq(n, _ => 0)
  }

  /** The visits a copy meets that begins at the `k`-th page of another one. */
  function From(visits: seq<Visit>, k: nat): seq<Visit> {
    if k <= |visits| then visits[k..] else []
  }

  lemma FromVisit(visits: seq<Visit>, start: nat, done: nat, j: nat, write: bool)
    ensures VisitAt(From(visits, VisitOf(start, done)), VisitOf(AddressOf(start, done), j))
          == VisitAt(visits, VisitOf(start, done + j))
    ensures Physical(From(visits, VisitOf(start, done)), AddressOf(start, done), j, write)
          == Physical(visits, start, done + j, write)
    ensures Arrives(From(visits, VisitOf(start, done)), AddressOf(start, done), j) == Arrives(visits, start, done + j)
  {
    hide PhysicalAt, AddressOf;
    NextAddress(start, done, j);
    SameOffset(start, done);
    var x := start % PAGE_SIZE + done;
    assert (x + j) / PAGE_SIZE == x / PAGE_SIZE + (x % PAGE_SIZE + j) / PAGE_SIZE;
  }

  /** A store of a whole chunk either places nothing or places the chunk, and reports it whole or not at all. */
  lemma ChunkResult(ram: seq<Byte>, after: seq<Byte>, visits: seq<Visit>, start: nat, bytes: seq<Byte>, left: nat)
    requires FramesInRam(visits, |ram|) && bytes != [] && Chunk(start, 0, |bytes|) == |bytes|
    requires StoreResult(true, ram, after, visits, start, bytes, left)
    ensures left == if Arrives(visits, start, 0) then 0 else |bytes|
    ensures Physical(visits, start, 0, true) == None ==> after == ram
    ensures Physical(visits, start, 0, true).Some? ==>
              Physical(visits, start, 0, true).value + |bytes| <= |ram|
              && after == Splice(ram, Physical(visits, start, 0, true).value, bytes)
  {
    hide Physical, FramesInRam, Chunk, Splice;
    forall i: nat | i < |bytes|
      ensures Arrives(visits, start, i) == Arrives(visits, start, 0)
    {
      ArriveTogether(visits, start, 0, |bytes|, i);
    }
    if Physical(visits, start, 0, true).Some? {
      assert Mapped(visits, start, 0, true, |ram|) && StoreBytes(ram, visits, start, bytes, 0) == ram;
      StoreChunk(ram, visits, start, bytes, 0, |bytes|, |bytes|);
      assert Piece(bytes, 0, |bytes|) == bytes;
    }
  }

  /** The loop of `__clear_user`, with `remaining` bytes to go. */
  ghost predicate Clearing(mm: bool, before: seq<Byte>, ram: seq<Byte>, visits: seq<Visit>, start: nat, n: nat,
                           remaining: nat, address: nat) {
    && remaining <= n && |ram| == |before| && address < ADDRESS_SPACE
    && if mm then Storing(before, ram, visits, start, Zeros(n), remaining, address) else remaining == n && ram == before
  }

  lemma ClearStarts(mm: bool, ram: seq<Byte>, visits: seq<Visit>, start: nat, n: nat)
    requires start < ADDRESS_SPACE
    ensures Clearing(mm, ram, ram, visits, start, n, n, start)
  {
    StoreStarts(ram, visits, start, Zeros(n));
  }

  lemma ClearEnds(mm: bool, before: seq<Byte>, ram: seq<Byte>, visits: seq<Visit>, start: nat, n: nat, address: nat)
    requires Clearing(mm, before, ram, visits, start, n, 0, address)
    ensures StoreResult(mm, before, ram, visits, start, Zeros(n), 0)
  {
    if mm {
      StoreEnds(before, ram, visits, start, Zeros(n), address);
    } else {
      assert StoreBytes(ram, visits, start, Zeros(n), 0) == ram;
    }
  }

  lemma ClearStep(mm: bool, before: seq<Byte>, ram: seq<Byte>, visits: seq<Visit>, start: nat, n: nat, remaining: nat,
                  address: nat,
                  chunk: nat, after: seq<Byte>, left: nat)
    requires FramesInRam(visits, |before|) && remaining > 0
    requires Clearing(mm, before, ram, visits, start, n, remaining, address)
    requires chunk == ChunkAt(address, remaining)
    requires StoreResult(mm, ram, after, From(visits, VisitOf(start, n - remaining)), address, Zeros(chunk), left)
    ensures left == 0 ==> Clearing(mm, before, after, visits, start, n, remaining - chunk, AddressOf(address, chunk))
    ensures left > 0 ==> left == chunk && StoreResult(mm, before, after, visits, start, Zeros(n), remaining)
  {
    hide Storing, ChunkAt, From, VisitOf, PhysicalAt;
    AddressBound(address, chunk);
    if mm {
      hide StoreResult;
      ClearChunk(before, ram, visits, start, n, remaining, address, chunk, after, left);
    } else {
      assert StoreBytes(ram, visits, start, Zeros(n), 0) == ram;
    }
  }

  /** One iteration of `__clear_user` does what one iteration of a store of zeros does. */
  lemma ClearChunk(before: seq<Byte>, ram: seq<Byte>, visits: seq<Visit>, start: nat, n: nat, remaining: nat,
                   address: nat,
                  chunk: nat, after: seq<Byte>, left: nat)
    requires FramesInRam(visits, |before|) && 0 < remaining <= n
    requires Storing(before, ram, visits, start, Zeros(n), remaining, address)
    requires chunk == ChunkAt(address, remaining)
    requires StoreResult(true, ram, after, From(visits, VisitOf(start, n - remaining)), address, Zeros(chunk), left)
    ensures left == 0 ==> Storing(before, after, visits, start, Zeros(n), remaining - chunk, AddressOf(address, chunk))
    ensures left > 0 ==> left == chunk && StoreResult(true, before, after, visits, start, Zeros(n), remaining)
  {
    hide Physical, PhysicalAt, StoreResult, StoredUpTo, Splice, VisitAt;
    var done := n - remaining;
    var shifted := From(visits, VisitOf(start, done));
    assert FramesInRam(shifted, |ram|);
    FromVisit(visits, start, done, 0, true);
    OneChunk(address, remaining);
    assert address == AddressOf(start, done);
    ChunkResult(ram, after, shifted, address, Zeros(chunk), left);
    AtByte(visits, start, done, true);
    if Physical(visits, start, done, true) == None {
      StoreBlocked(before, ram, visits, start, Zeros(n), remaining, address);
    } else {
      assert Piece(Zeros(n), done, chunk) == Zeros(chunk);
      StoreStep(before, ram, visits, start, Zeros(n), remaining, address, Physical(visits, start, done, true).value,
                chunk, after);
    }
  }

  lemma AtByte(visits: seq<Visit>, start: nat, i: nat, write: bool)
    ensures Physical(visits, start, i, write)
          == PhysicalAt(VisitAt(visits, VisitOf(start, i)), AddressOf(start, i), write)
  {
  }

  lemma ClearingBounds(mm: bool, before: seq<Byte>, ram: seq<Byte>, visits: seq<Visit>, start: nat, n: nat,
                       remaining: nat, address: nat)
    requires Clearing(mm, before, ram, visits, start, n, remaining, address)
    ensures |ram| == |before| && address < ADDRESS_SPACE
  {
  }

  lemma AddressBound(start: nat, i: nat)
    ensures AddressOf(start, i) < ADDRESS_SPACE
  {
  }

  lemma ShiftInRam(visits: seq<Visit>, k: nat, ramSize: nat)
    requires FramesInRam(visits, ramSize)
    ensures FramesInRam(From(visits, k), ramSize)
  {
  }

  lemma OneChunk(address: nat, remaining: nat)
    requires address < ADDRESS_SPACE && remaining > 0
    ensures Chunk(address, 0, ChunkAt(address, remaining)) == ChunkAt(address, remaining)
  {
  }

  class UserMemory {
    var ram: seq<Byte>

    constructor (ram: seq<Byte>)
      ensures this.ram == ram
    {
      this.ram := ram;
    }

    /** Resolve, fault in when that fails, and resolve again; the bytes of the page, or nothing. */
    method Locate(v: Visit, address: nat, write: bool) returns (at: Option<nat>)
      ensures at == PhysicalAt(v, address, write)
    {
      var entry := Resolve(v.before, address, write);
      if entry == None {
        if !v.faulted {
          return None;
        }
        entry := Resolve(v.after, address, write);
        if entry == None {
          return None;
        }
      }
      return Some(entry.value * PAGE_SIZE + address % PAGE_SIZE);
    }

    /** `memcpy` into the destination. */
    method CopyChunk(to: array<Byte>, at: nat, bytes: seq<Byte>)
      requires at + |bytes| <= to.Length
      modifies to
      ensures to[..] == Splice(old(to[..]), at, bytes)
    {
      forall i | 0 <= i < |bytes| {
        to[at + i] := bytes[i];
      }
    }

    /** `raw_copy_from_user`. */
    method CopyFromUser(mm: bool, to: array<Byte>, from: nat, n: nat, visits: seq<Visit>) returns (remaining: nat)
      requires n <= to.Length && from < ADDRESS_SPACE && FramesInRam(visits, |ram|)
      modifies to
      ensures ReadResult(mm, old(to[..]), to[..], ram, visits, from, n, remaining)
    {
      remaining := n;
      ReadStarts(to[..], ram, visits, from, n);
      if !mm {
        return;
      }
      hide Piece, FramesInRam, Reading, ReadResult, AddressOf, VisitAt, VisitOf, PhysicalAt, ChunkAt, Splice;
      var address := from;
      while remaining > 0
        invariant remaining <= n && Reading(old(to[..]), to[..], ram, visits, from, n, remaining, address)
      {
        var chunk := ChunkAt(address, remaining);
        var visit := VisitAt(visits, VisitOf(from, n - remaining));
        var source := Locate(visit, address, false);
        if source == None {
          ReadEnds(old(to[..]), to[..], ram, visits, from, n, remaining, address);
          return;
        }
        var p := source.value;
        ReadFits(old(to[..]), to[..], ram, visits, from, n, remaining, address, p);
        ghost var before := to[..];
        CopyChunk(to, n - remaining, Piece(ram, p, chunk));
        ReadStep(old(to[..]), before, ram, visits, from, n, remaining, address, p, chunk, to[..]);
        address := AddressOf(address, chunk);
        remaining := remaining - chunk;
      }
      ReadEnds(old(to[..]), to[..], ram, visits, from, n, remaining, address);
    }

    /**
     `raw_copy_to_user`: memory is as after the byte loop over what is reported as copied, and over
     one further chunk when the refresh of its page failed.
     */
    method CopyToUser(mm: bool, to: nat, from: seq<Byte>, visits: seq<Visit>) returns (remaining: nat)
      requires to < ADDRESS_SPACE && FramesInRam(visits, |ram|)
      modifies this`ram
      ensures StoreResult(mm, old(ram), ram, visits, to, from, remaining)
    {
      remaining := |from|;
      StoreStarts(ram, visits, to, from);
      if !mm {
        return;
      }
      hide Piece, FramesInRam, Storing, StoreResult, AddressOf, VisitAt, VisitOf, PhysicalAt, ChunkAt, Splice;
      var address := to;
      while remaining > 0
        invariant remaining <= |from| && Storing(old(ram), ram, visits, to, from, remaining, address)
      {
        var done := |from| - remaining;
        var chunk := ChunkAt(address, remaining);
        var visit := VisitAt(visits, VisitOf(to, done));
        var target := Locate(visit, address, true);
        if target == None {
          StoreBlocked(old(ram), ram, visits, to, from, remaining, address);
          return;
        }
        var p := target.value;
        StoreFits(old(ram), ram, visits, to, from, remaining, address, p);
        ghost var before := ram;
        ram := Splice(ram, p, Piece(from, done, chunk));
        StoreStep(old(ram), before, visits, to, from, remaining, address, p, chunk, ram);
        if !visit.synced {
          return;
        }
        address := AddressOf(address, chunk);
        remaining := remaining - chunk;
      }
      StoreEnds(old(ram), ram, visits, to, from, address);
    }

    /** `__clear_user` returns what a store of zeros would return, and leaves the same memory. */
    method ClearUser(mm: bool, to: nat, n: nat, visits: seq<Visit>) returns (r: nat)
      requires to < ADDRESS_SPACE && FramesInRam(visits, |ram|)
      modifies this`ram
      ensures StoreResult(mm, old(ram), ram, visits, to, Zeros(n), r)
    {
      ClearStarts(mm, ram, visits, to, n);
      hide Piece, Clearing, StoreResult, AddressOf, VisitOf, ChunkAt, Zeros, From, FramesInRam;
      var remaining: nat, address: nat := n, to;
      while remaining > 0
        invariant Clearing(mm, old(ram), ram, visits, to, n, remaining, address)
        invariant remaining <= n && |ram| == |old(ram)| && address < ADDRESS_SPACE
      {
        ghost var before := ram;
        var chunk := ChunkAt(address, remaining);
        var visited := From(visits, VisitOf(to, n - remaining));
        ShiftInRam(visits, VisitOf(to, n - remaining), |ram|);
        var left := CopyToUser(mm, address, Zeros(chunk), visited);
        ClearStep(mm, old(ram), before, visits, to, n, remaining, address, chunk, ram, left);
        if left > 0 {
          r := remaining - (chunk - left);
          assert r == remaining;
          return;
        }
        ClearingBounds(mm, old(ram), ram, visits, to, n, remaining - chunk, AddressOf(address, chunk));
        address := AddressOf(address, chunk);
        remaining := remaining - chunk;
      }
      ClearEnds(mm, old(ram), ram, visits, to, n, address);
      return 0;
    }
  }
}
