/** Written sectors over runs of block requests: they stay as written until a request writes them again. */
module BlockRuns {
  import opened HostTypes
  import opened Slices
  import opened GuestBuffers
  import opened BlockChain
  import opened BlockImage
  import opened BlockRequest
  import opened BlockTheorems

  // ---------------------------------------------------------------- where a request can write

  lemma SectorAfter(disk: Disk, sector: nat, length: nat)
    requires ValidDisk(disk) && InCapacity(disk, sector, length)
    ensures sector * SECTOR <= (sector + length / SECTOR) % ADDRESS_SPACE * SECTOR <= sector * SECTOR + length
  {
  }

  lemma StepOutside(id: seq<Byte>, d: Desc, p: Progress, a: nat)
    requires ValidDisk(p.disk) && DescInGuest(d, |p.guest|) && a < |p.disk.image|
    requires a < p.sector * SECTOR || p.sector * SECTOR + d.len <= a
    ensures var q := DataStep(id, TYPE_OUT, d, p);
            && |q.disk.image| == |p.disk.image| && q.disk.image[a] == p.disk.image[a]
            && p.sector * SECTOR <= q.sector * SECTOR <= p.sector * SECTOR + d.len
  {
    if p.status == Ok && InCapacity(p.disk, p.sector, d.len) {
      SectorAfter(p.disk, p.sector, d.len);
    }
  }

  /** A run of data descriptors writes only the bytes from its sector on, as many as the buffers hold. */
  lemma {:induction false} RunOutside(id: seq<Byte>, desc: seq<Desc>, data: seq<nat>, p: Progress, a: nat)
    requires ValidDisk(p.disk) && TableInGuest(desc, |p.guest|) && a < |p.disk.image|
    requires forall i :: 0 <= i < |data| ==> data[i] < |desc|
    requires a < p.sector * SECTOR || p.sector * SECTOR + TotalLength(Buffers(desc, data)) <= a
    ensures var r := DataRun(id, TYPE_OUT, desc, data, p);
            |r.disk.image| == |p.disk.image| && r.disk.image[a] == p.disk.image[a]
    decreases |data|
  {
    hide DataStep, InCapacity;
    if data != [] {
      var d := desc[data[0]];
      assert TotalLength(Buffers(desc, data)) == d.len + TotalLength(Buffers(desc, data[1..])) by {
        assert Buffers(desc, data)[1..] == Buffers(desc, data[1..]);
      }
      StepOutside(id, d, p, a);
      RunOutside(id, desc, data[1..], DataStep(id, TYPE_OUT, d, p), a);
    }
  }

  /** Whatever its tables hold, the request is no write that covers byte `a` of the image. */
  ghost predicate Spares(c: Call, a: nat)
    requires TablesInGuest(c.queue, c.head, c.table, |c.guest|)
  {
    var start := Resolve(c.queue, c.head, c.table);
    start.Some? && HasHeader(start.value) ==>
      var desc, first := start.value.desc, start.value.desc[start.value.head];
      var header, data := HeaderAt(c.guest, first.addr), Follow(desc, first.next, |desc|).data;
      || header.kind != TYPE_OUT || a < header.sector * SECTOR
      || header.sector * SECTOR + TotalLength(Buffers(desc, data)) <= a
  }

  lemma RequestSpares(id: seq<Byte>, c: Call, disk: Disk, a: nat)
    requires ValidDisk(disk) && TablesInGuest(c.queue, c.head, c.table, |c.guest|) && a < |disk.image| && Spares(c, a)
    ensures var r := Request(id, c.queue, c.head, c.table, c.flushed, c.guest, disk).disk;
            |r.image| == |disk.image| && r.image[a] == disk.image[a]
  {
    hide DataRun, HeaderAt, Follow;
    RequestKeeps(id, c, disk);
    var start := Resolve(c.queue, c.head, c.table);
    if start.Some? && HasHeader(start.value) {
      var desc := start.value.desc;
      var first := desc[start.value.head];
      var header := HeaderAt(c.guest, first.addr);
      var walk := Follow(desc, first.next, |desc|);
      var p := Progress(c.guest, disk, header.sector, 0, Ok);
      if header.kind == TYPE_OUT {
        RunOutside(id, desc, walk.data, p, a);
      } else {
        RunKeeps(id, header.kind, desc, walk.data, p);
      }
    }
  }

  ghost predicate AllSpare(calls: seq<Call>, at: nat, n: nat)
    requires CallsInGuest(calls)
  {
    forall i, a :: 0 <= i < |calls| && at <= a < at + n ==> Spares(calls[i], a)
  }

  /** A window no request of the run writes stays as it is. */
  lemma {:induction false} ServeSpares(id: seq<Byte>, disk: Disk, calls: seq<Call>, at: nat, n: nat)
    requires ValidDisk(disk) && CallsInGuest(calls) && AllSpare(calls, at, n) && at + n <= |disk.image|
    ensures var r := Serve(id, disk, calls);
            && |r.image| == |disk.image| && r.writable == disk.writable
            && r.image[at..at + n] == disk.image[at..at + n]
    decreases |calls|
  {
    hide Request, Spares;
    ReadOnlyImageKept(id, disk, calls);
    if calls != [] {
      var k := |calls| - 1;
      var before, after := Serve(id, disk, calls[..k]), Serve(id, disk, calls);
      assert AllSpare(calls[..k], at, n);
      ServeSpares(id, disk, calls[..k], at, n);
      forall a | at <= a < at + n
        ensures after.image[a] == before.image[a]
      {
        assert Spares(calls[k], a);
        RequestSpares(id, calls[k], before, a);
      }
      assert after.image[at..at + n] == before.image[at..at + n];
    }
  }

  // ---------------------------------------------------------------- a write, other requests, a read

  /** A request of whole sectors: its chain leads from the header over `data` to the status descriptor `end`. */
  ghost predicate Carries(c: Call, start: Start, header: Header, data: seq<nat>, end: nat) {
    && TablesInGuest(c.queue, c.head, c.table, |c.guest|)
    && WellFormed(c.queue, c.head, c.table, c.guest, start, header, data, end)
    && data != [] && WholeSectors(start.desc, data)
  }

  function Answer(id: seq<Byte>, c: Call, disk: Disk): Outcome
    requires ValidDisk(disk) && TablesInGuest(c.queue, c.head, c.table, |c.guest|)
  {
    Request(id, c.queue, c.head, c.table, c.flushed, c.guest, disk)
  }

  lemma WindowOfImage(disk: Disk, at: nat, n: nat)
    requires ValidDisk(disk) && disk.writable && at + n <= |disk.image|
    ensures at + n <= |Padded(disk.image)| && Window(Padded(disk.image), at, n) == disk.image[at..at + n]
  {
    assert Padded(disk.image) == disk.image;
  }

  lemma StoredSlice(image: seq<Byte>, at: nat, bytes: seq<Byte>)
    requires at + |bytes| <= |image|
    ensures Splice(image, at, bytes)[at..at + |bytes|] == bytes
  {
  }

  /**
   What one request wrote, a later one reads back through any buffers, whatever requests came in between
   that did not write these sectors, and whatever the guest did to its memory.
   */
  lemma WriteThenRead(id: seq<Byte>, disk: Disk, sector: nat, w: Call, start1: Start, data1: seq<nat>, end1: nat,
                      between: seq<Call>, r: Call, start2: Start, data2: seq<nat>, end2: nat)
    requires ValidDisk(disk) && CallsInGuest(between)
    requires Carries(w, start1, Header(TYPE_OUT, sector), data1, end1)
    requires Carries(r, start2, Header(TYPE_IN, sector), data2, end2)
    requires AllSeparate(Buffers(start2.desc, data2))
    requires ApartFrom(Buffers(start2.desc, data2), Buffer(start2.desc[end2].addr, 1))
    requires TotalLength(Buffers(start1.desc, data1)) == TotalLength(Buffers(start2.desc, data2))
    requires AllSpare(between, sector * SECTOR, TotalLength(Buffers(start1.desc, data1)))
    requires Answer(id, w, disk).result == Ok && Usable(start2.desc, data2, true)
    ensures var o := Answer(id, r, Serve(id, Answer(id, w, disk).disk, between));
            && o.result == Ok
            && AllInGuest(Buffers(start1.desc, data1), |w.guest|) && AllInGuest(Buffers(start2.desc, data2), |r.guest|)
            && Gather(o.guest, Buffers(start2.desc, data2)) == Gather(w.guest, Buffers(start1.desc, data1))
  {
    var at, n := sector * SECTOR, TotalLength(Buffers(start1.desc, data1));
    hide Request, Usable, Gather, AllSeparate, ApartFrom, WholeSectors, Padded, Window, Serve, AllSpare;
    WriteRequest(id, w.queue, w.head, w.table, w.flushed, w.guest, disk, start1, sector, data1, end1);
    var bytes := Gather(w.guest, Buffers(start1.desc, data1));
    var stored := Answer(id, w, disk).disk;
    StoredSlice(disk.image, at, bytes);
    ServeSpares(id, stored, between, at, n);
    var later := Serve(id, stored, between);
    WindowOfImage(later, at, n);
    ReadRequest(id, r.queue, r.head, r.table, r.flushed, r.guest, later, start2, sector, data2, end2);
  }
}
