/** Block requests against the image: what is read, what is written, and what never changes. */
module BlockTheorems {
  import opened HostTypes
  import opened Slices
  import opened GuestBuffers
  import opened BlockChain
  import opened BlockImage
  import opened BlockRequest

  function Buffers(desc: seq<Desc>, data: seq<nat>): (r: seq<Buffer>)
    requires forall i :: 0 <= i < |data| ==> data[i] < |desc|
    ensures |r| == |data|
    ensures forall i :: 0 <= i < |data| ==> r[i] == Buffer(desc[data[i]].addr, desc[data[i]].len)
  {
    if data == [] then [] else [Buffer(desc[data[0]].addr, desc[data[0]].len)] + Buffers(desc, data[1..])
  }

  /** Non-empty buffers the device may use in the direction of the request; all but the last hold whole sectors. */
  predicate Usable(desc: seq<Desc>, data: seq<nat>, write: bool)
    requires forall i :: 0 <= i < |data| ==> data[i] < |desc|
  {
    forall i :: 0 <= i < |data| ==> var d := desc[data[i]]; d.write == write && d.len > 0 && Addressable(d.addr, d.len)
  }

  predicate WholeSectors(desc: seq<Desc>, data: seq<nat>)
    requires forall i :: 0 <= i < |data| ==> data[i] < |desc|
  {
    forall i :: 0 <= i < |data| ==> var d := desc[data[i]]; !d.indirect && (i < |data| - 1 ==> d.len % SECTOR == 0)
  }

  lemma RestOfRun(desc: seq<Desc>, data: seq<nat>, write: bool)
    requires data != [] && forall i :: 0 <= i < |data| ==> data[i] < |desc|
    ensures forall i :: 0 <= i < |data[1..]| ==> data[1..][i] == data[i + 1] < |desc|
    ensures WholeSectors(desc, data) ==> WholeSectors(desc, data[1..])
    ensures |data| == 1 ==> Usable(desc, data[1..], write)
    ensures var d := desc[data[0]];
            Usable(desc, data, write) <==>
                d.write == write && d.len > 0 && Addressable(d.addr, d.len) && Usable(desc, data[1..], write)
  {
    var rest := data[1..];
    assert forall i | 0 <= i < |rest| :: rest[i] == data[i + 1];
    if WholeSectors(desc, data) {
      forall i | 0 <= i < |rest|
        ensures !desc[rest[i]].indirect && (i < |rest| - 1 ==> desc[rest[i]].len % SECTOR == 0)
      {
        assert rest[i] == data[i + 1];
      }
    }
    if desc[data[0]].write == write && desc[data[0]].len > 0 && Addressable(desc[data[0]].addr, desc[data[0]].len)
       && Usable(desc, rest, write) {
      forall i | 0 <= i < |data|
        ensures var d := desc[data[i]]; d.write == write && d.len > 0 && Addressable(d.addr, d.len)
      {
        assert i > 0 ==> data[i] == rest[i - 1];
      }
    }
  }

  lemma BuffersCons(desc: seq<Desc>, data: seq<nat>)
    requires data != [] && forall i :: 0 <= i < |data| ==> data[i] < |desc|
    ensures forall i :: 0 <= i < |data[1..]| ==> data[1..][i] == data[i + 1] < |desc|
    ensures Buffers(desc, data) == [Buffer(desc[data[0]].addr, desc[data[0]].len)] + Buffers(desc, data[1..])
    ensures TotalLength(Buffers(desc, data)) == desc[data[0]].len + TotalLength(Buffers(desc, data[1..]))
    ensures |data| == 1 ==> Buffers(desc, data[1..]) == [] && TotalLength(Buffers(desc, data[1..])) == 0
  {
    var b, bs := Buffer(desc[data[0]].addr, desc[data[0]].len), Buffers(desc, data[1..]);
    assert ([b] + bs)[1..] == bs;
  }

  function Window(image: seq<Byte>, at: nat, n: nat): (r: seq<Byte>)
    requires at + n <= |image|
    ensures |r| == n
  {
    image[at..at + n]
  }

  lemma WindowParts(image: seq<Byte>, at: nat, a: nat, b: nat)
    requires at + (a + b) <= |image|
    ensures Window(image, at, a + b)[..a] == Window(image, at, a)
    ensures Window(image, at, a + b)[a..] == Window(image, at + a, b)
  {
    var all := image[at..at + (a + b)];
    SliceOfSlice(image, at, at + (a + b), 0, a);
    SliceOfSlice(image, at, at + (a + b), a, a + b);
    assert all[..a] == all[0..a] && all[a..] == all[a..a + b];
  }

  // ---------------------------------------------------------------- reads

  lemma {:induction false} StuckRun(id: seq<Byte>, kind: nat, desc: seq<Desc>, data: seq<nat>, p: Progress)
    requires ValidDisk(p.disk) && TableInGuest(desc, |p.guest|) && p.status != Ok
    requires forall i :: 0 <= i < |data| ==> data[i] < |desc|
    ensures DataRun(id, kind, desc, data, p) == p
    decreases |data|
  {
    if data != [] {
      StuckRun(id, kind, desc, data[1..], p);
    }
  }

  lemma SectorMoves(disk: Disk, sector: nat, length: nat)
    requires ValidDisk(disk) && sector * SECTOR + length <= |Padded(disk.image)| && length % SECTOR == 0
    ensures (sector + length / SECTOR) % ADDRESS_SPACE * SECTOR == sector * SECTOR + length
  {
    assert length == length / SECTOR * SECTOR;
  }

  lemma ReadStep(id: seq<Byte>, d: Desc, p: Progress)
    requires ValidDisk(p.disk) && DescInGuest(d, |p.guest|) && p.status == Ok && !d.indirect
    ensures var q := DataStep(id, TYPE_IN, d, p);
            var at, image := p.sector * SECTOR, Padded(p.disk.image);
            && q.disk == p.disk
            && (q.status == Ok <==> d.write && d.len > 0 && Addressable(d.addr, d.len) && at + d.len <= |image|)
            && (q.status == Ok ==>
                  && q.guest == Splice(p.guest, d.addr, Window(image, at, d.len))
                  && q.written == (p.written + d.len) % U32
                  && (d.len % SECTOR == 0 ==> q.sector * SECTOR == at + d.len))
  {
    ReadIsSlice(p.disk, p.sector, d.len);
    if p.sector * SECTOR + d.len <= |Padded(p.disk.image)| && d.len % SECTOR == 0 {
      SectorMoves(p.disk, p.sector, d.len);
    }
  }

  /** What a read run from `p` to `r` has done. */
  ghost predicate ReadDone(desc: seq<Desc>, data: seq<nat>, p: Progress, r: Progress)
    requires forall i :: 0 <= i < |data| ==> data[i] < |desc|
    requires |r.guest| == |p.guest|
  {
    var bs, at, image := Buffers(desc, data), p.sector * SECTOR, Padded(p.disk.image);
    && r.disk == p.disk
    && (r.status == Ok <==> data == [] || (Usable(desc, data, true) && at + TotalLength(bs) <= |image|))
    && (r.status == Ok && data != [] ==>
          && AllInGuest(bs, |p.guest|)
          && r.guest == Scatter(p.guest, bs, Window(image, at, TotalLength(bs)))
          && r.written == (p.written + TotalLength(bs)) % U32)
  }

  lemma ScatterCons(guest: seq<Byte>, b: Buffer, rest: seq<Buffer>, payload: seq<Byte>)
    requires InGuest(b, |guest|) && AllInGuest(rest, |guest|) && |payload| >= b.len
    ensures AllInGuest([b] + rest, |guest|) && TotalLength([b] + rest) == b.len + TotalLength(rest)
    ensures Scatter(guest, [b] + rest, payload)
          == Scatter(Splice(guest, b.addr, payload[..b.len]), rest, payload[b.len..])
  {
    var bs := [b] + rest;
    assert bs[1..] == rest;
  }

  lemma ScatterNone(guest: seq<Byte>, payload: seq<Byte>)
    ensures Scatter(guest, [], payload) == guest
  {
  }

  lemma ScatterFirst(guest: seq<Byte>, b: Buffer, rest: seq<Buffer>, image: seq<Byte>, at: nat)
    requires InGuest(b, |guest|) && AllInGuest(rest, |guest|)
    requires at + (b.len + TotalLength(rest)) <= |image|
    ensures AllInGuest([b] + rest, |guest|)
    ensures Scatter(guest, [b] + rest, Window(image, at, b.len + TotalLength(rest)))
         == Scatter(Splice(guest, b.addr, Window(image, at, b.len)), rest, Window(image, at + b.len, TotalLength(rest)))
  {
    hide Window, Scatter, AllInGuest, TotalLength, Splice;
    WindowParts(image, at, b.len, TotalLength(rest));
    ScatterCons(guest, b, rest, Window(image, at, b.len + TotalLength(rest)));
  }

  /** Filling the first buffer and then the others is filling them all. */
  lemma FilledOn(guest: seq<Byte>, b: Buffer, bs: seq<Buffer>, all: seq<Buffer>, image: seq<Byte>, at: nat,
                 after: seq<Byte>)
    requires InGuest(b, |guest|) && at + TotalLength(all) <= |image|
    requires all == [b] + bs && TotalLength(all) == b.len + TotalLength(bs)
    requires bs == [] ==> after == Splice(guest, b.addr, Window(image, at, b.len))
    requires bs != [] ==>
               && AllInGuest(bs, |guest|)
               && after == Scatter(Splice(guest, b.addr, Window(image, at, b.len)), bs,
                                   Window(image, at + b.len, TotalLength(bs)))
    ensures AllInGuest(all, |guest|)
    ensures after == Scatter(guest, all, Window(image, at, TotalLength(all)))
  {
    hide Scatter, Window;
    if bs == [] {
      ScatterNone(Splice(guest, b.addr, Window(image, at, b.len)), Window(image, at + b.len, 0));
    }
    ScatterFirst(guest, b, bs, image, at);
  }

  lemma CountOn(a: nat, b: nat, c: nat)
    ensures ((a + b) % U32 + c) % U32 == (a + (b + c)) % U32
  {
  }

  lemma ReadLink(id: seq<Byte>, desc: seq<Desc>, data: seq<nat>, p: Progress, q: Progress, r: Progress)
    requires ValidDisk(p.disk) && TableInGuest(desc, |p.guest|) && p.status == Ok
    requires data != [] && forall i :: 0 <= i < |data| ==> data[i] < |desc|
    requires WholeSectors(desc, data) && q == DataStep(id, TYPE_IN, desc[data[0]], p) && q.status == Ok
    requires |r.guest| == |p.guest| && (forall i :: 0 <= i < |data[1..]| ==> data[1..][i] == data[i + 1])
    requires ReadDone(desc, data[1..], q, r) && (data[1..] == [] ==> r == q)
    ensures ReadDone(desc, data, p, r)
  {
    hide Scatter, Window, Padded, HostRead, HostWrite, Usable, DataStep, ProcessData, InCapacity;
    var d, rest := desc[data[0]], data[1..];
    assert !d.indirect && DescInGuest(d, |p.guest|) && (|data| > 1 ==> d.len % SECTOR == 0);
    hide Buffers, TotalLength, AllInGuest, Splice, WholeSectors, TableInGuest;
    var b, bs := Buffer(d.addr, d.len), Buffers(desc, rest);
    ReadStep(id, d, p);
    RestOfRun(desc, data, true);
    BuffersCons(desc, data);
    if r.status == Ok {
      CountOn(p.written, b.len, TotalLength(bs));
      FilledOn(p.guest, b, bs, Buffers(desc, data), Padded(p.disk.image), p.sector * SECTOR, r.guest);
    }
  }

  /**
   The data part of a read: it succeeds exactly inside the padded image, and then fills the buffers with that
   slice.
   */
  lemma {:induction false} ReadRun(id: seq<Byte>, desc: seq<Desc>, data: seq<nat>, p: Progress)
    requires ValidDisk(p.disk) && TableInGuest(desc, |p.guest|) && p.status == Ok
    requires forall i :: 0 <= i < |data| ==> data[i] < |desc|
    requires WholeSectors(desc, data)
    ensures ReadDone(desc, data, p, DataRun(id, TYPE_IN, desc, data, p))
    decreases |data|
  {
    if data != [] {
      hide Scatter, Padded, HostRead, HostWrite;
      var d, rest := desc[data[0]], data[1..];
      var q := DataStep(id, TYPE_IN, d, p);
      RestOfRun(desc, data, true);
      if q.status == Ok {
        ReadRun(id, desc, rest, q);
        ReadLink(id, desc, data, p, q, DataRun(id, TYPE_IN, desc, rest, q));
      } else {
        StuckRun(id, TYPE_IN, desc, rest, q);
        ReadStep(id, d, p);
      }
    }
  }

  // ---------------------------------------------------------------- writes

  lemma WriteStep(id: seq<Byte>, d: Desc, p: Progress)
    requires ValidDisk(p.disk) && DescInGuest(d, |p.guest|) && p.status == Ok && !d.indirect
    ensures var q := DataStep(id, TYPE_OUT, d, p);
            var at := p.sector * SECTOR;
            && q.guest == p.guest && q.written == p.written && q.disk.writable == p.disk.writable
            && |q.disk.image| == |p.disk.image|
            && (q.status == Ok <==>
                p.disk.writable && !d.write && d.len > 0 && Addressable(d.addr, d.len) && at + d.len <= |p.disk.image|)
            && (q.status == Ok ==>
                  && q.disk == p.disk.(image := Splice(p.disk.image, at, p.guest[d.addr..d.addr + d.len]))
                  && (d.len % SECTOR == 0 ==> q.sector * SECTOR == at + d.len))
  {
    CapacityExactly(p.disk, p.sector, d.len);
    if p.sector * SECTOR + d.len <= |Padded(p.disk.image)| && d.len % SECTOR == 0 {
      SectorMoves(p.disk, p.sector, d.len);
    }
  }

  /** What a write run from `p` to `r` has done. */
  ghost predicate WriteDone(desc: seq<Desc>, data: seq<nat>, p: Progress, r: Progress)
    requires forall i :: 0 <= i < |data| ==> data[i] < |desc|
  {
    var bs, at := Buffers(desc, data), p.sector * SECTOR;
    && r.guest == p.guest && r.written == p.written && |r.disk.image| == |p.disk.image|
    && (r.status == Ok <==>
        data == [] || (p.disk.writable && Usable(desc, data, false) && at + TotalLength(bs) <= |p.disk.image|))
    && (r.status == Ok && data != [] ==>
          && AllInGuest(bs, |p.guest|)
          && r.disk == p.disk.(image := Splice(p.disk.image, at, Gather(p.guest, bs))))
  }

  lemma GatherCons(guest: seq<Byte>, b: Buffer, rest: seq<Buffer>)
    requires InGuest(b, |guest|) && AllInGuest(rest, |guest|)
    ensures AllInGuest([b] + rest, |guest|) && TotalLength([b] + rest) == b.len + TotalLength(rest)
    ensures Gather(guest, [b] + rest) == guest[b.addr..b.addr + b.len] + Gather(guest, rest)
  {
    var bs := [b] + rest;
    assert bs[1..] == rest;
  }

  lemma SpliceTwo(s: seq<Byte>, at: nat, a: seq<Byte>, b: seq<Byte>)
    requires at + |a| + |b| <= |s|
    ensures Splice(Splice(s, at, a), at + |a|, b) == Splice(s, at, a + b)
  {
  }

  lemma WriteLink(id: seq<Byte>, desc: seq<Desc>, data: seq<nat>, p: Progress, q: Progress, r: Progress)
    requires ValidDisk(p.disk) && TableInGuest(desc, |p.guest|) && p.status == Ok
    requires data != [] && forall i :: 0 <= i < |data| ==> data[i] < |desc|
    requires WholeSectors(desc, data) && q == DataStep(id, TYPE_OUT, desc[data[0]], p) && q.status == Ok
    requires forall i :: 0 <= i < |data[1..]| ==> data[1..][i] == data[i + 1]
    requires WriteDone(desc, data[1..], q, r) && (data[1..] == [] ==> r == q)
    ensures WriteDone(desc, data, p, r)
  {
    hide Gather, Splice, Padded, HostRead, HostWrite;
    var d, rest := desc[data[0]], data[1..];
    var b, bs := Buffer(d.addr, d.len), Buffers(desc, rest);
    WriteStep(id, d, p);
    RestOfRun(desc, data, false);
    assert [b] + bs == Buffers(desc, data);
    assert TotalLength([b] + bs) == d.len + TotalLength(bs) by {
      assert ([b] + bs)[1..] == bs;
    }
    if r.status == Ok {
      GatherCons(p.guest, b, bs);
      if rest != [] {
        SpliceTwo(p.disk.image, p.sector * SECTOR, p.guest[d.addr..d.addr + d.len], Gather(p.guest, bs));
      } else {
        assert Gather(p.guest, bs) == [];
      }
    }
  }

  /**
   The data part of a write: it succeeds exactly on a writable disk inside the image, and stores the buffers
   there.
   */
  lemma {:induction false} WriteRun(id: seq<Byte>, desc: seq<Desc>, data: seq<nat>, p: Progress)
    requires ValidDisk(p.disk) && TableInGuest(desc, |p.guest|) && p.status == Ok
    requires forall i :: 0 <= i < |data| ==> data[i] < |desc|
    requires WholeSectors(desc, data)
    ensures WriteDone(desc, data, p, DataRun(id, TYPE_OUT, desc, data, p))
    decreases |data|
  {
    if data != [] {
      hide Gather, Splice, Padded, HostRead, HostWrite;
      var d, rest := desc[data[0]], data[1..];
      var q := DataStep(id, TYPE_OUT, d, p);
      RestOfRun(desc, data, false);
      if q.status == Ok {
        WriteRun(id, desc, rest, q);
        WriteLink(id, desc, data, p, q, DataRun(id, TYPE_OUT, desc, rest, q));
      } else {
        StuckRun(id, TYPE_OUT, desc, rest, q);
        WriteStep(id, d, p);
      }
    }
  }

  // ---------------------------------------------------------------- requests

  /** A request with a readable header, whose chain ends in a status byte the device may write. */
  ghost predicate WellFormed(queue: seq<Desc>, head: nat, table: seq<Desc>, guest: seq<Byte>, start: Start,
                             header: Header, data: seq<nat>, end: nat)
    requires TablesInGuest(queue, head, table, |guest|)
  {
    && Resolve(queue, head, table) == Some(start) && HasHeader(start)
    && HeaderAt(guest, start.desc[start.head].addr) == header
    && IsChain(start.desc, start.desc[start.head].next, data + [end])
    && (forall i :: 0 <= i < |data| ==> data[i] < |start.desc|) && end < |start.desc|
    && start.desc[end].write && start.desc[end].len >= 1 && Addressable(start.desc[end].addr, 1)
  }

  lemma RequestRuns(id: seq<Byte>, queue: seq<Desc>, head: nat, table: seq<Desc>, flushed: bool, guest: seq<Byte>,
                    disk: Disk,
                    start: Start, header: Header, data: seq<nat>, end: nat)
    requires ValidDisk(disk) && TablesInGuest(queue, head, table, |guest|)
    requires WellFormed(queue, head, table, guest, start, header, data, end)
    ensures var p := DataRun(id, header.kind, start.desc, data, Progress(guest, disk, header.sector, 0, Ok));
            Request(id, queue, head, table, flushed, guest, disk) == Finish(header.kind, start.desc[end], flushed, p)
    ensures forall i :: 0 <= i < |data| ==> !start.desc[data[i]].indirect
    ensures !start.desc[end].hasNext && !start.desc[end].indirect
  {
    hide DataRun, Finish, HeaderAt;
    var desc := start.desc;
    var p := data + [end];
    FollowExactly(desc, desc[start.head].next);
    assert p[..|p| - 1] == data && p[|p| - 1] == end;
    assert forall i | 0 <= i < |data| :: p[i] == data[i];
  }

  ghost predicate ApartFrom(bs: seq<Buffer>, b: Buffer) {
    forall i :: 0 <= i < |bs| ==> Separate(bs[i], b)
  }

  lemma StatusElsewhere(guest: seq<Byte>, bs: seq<Buffer>, at: nat, value: Byte)
    requires AllInGuest(bs, |guest|) && at < |guest| && ApartFrom(bs, Buffer(at, 1))
    ensures Gather(Splice(guest, at, [value]), bs) == Gather(guest, bs)
  {
    forall a | 0 <= a < |guest| && Touches(bs, a)
      ensures Splice(guest, at, [value])[a] == guest[a]
    {
      var i :| 0 <= i < |bs| && bs[i].addr <= a < bs[i].addr + bs[i].len;
      assert Separate(bs[i], Buffer(at, 1));
    }
    GatherUnchanged(guest, Splice(guest, at, [value]), bs);
  }

  lemma FullGather(guest: seq<Byte>, bs: seq<Buffer>, payload: seq<Byte>)
    requires AllInGuest(bs, |guest|) && AllSeparate(bs) && |payload| == TotalLength(bs)
    ensures Gather(Scatter(guest, bs, payload), bs) == payload
  {
    GatherScatter(guest, bs, payload);
    var g := Gather(Scatter(guest, bs, payload), bs);
    assert g[..|payload|] == g;
  }

  lemma FinishRead(d: Desc, flushed: bool, p: Progress)
    requires ValidDisk(p.disk) && DescInGuest(d, |p.guest|)
    requires d.write && !d.hasNext && !d.indirect && d.len >= 1 && Addressable(d.addr, 1)
    ensures d.addr < |p.guest|
    ensures Finish(TYPE_IN, d, flushed, p)
         == Outcome(Splice(p.guest, d.addr, [StatusByte(p.status)]), p.disk, (p.written + 1) % U32, p.status)
    ensures Splice(p.guest, d.addr, [StatusByte(p.status)])[d.addr] == StatusByte(p.status)
  {
  }

  /**
   A read request succeeds exactly when its buffers are usable and its sectors lie in the padded
   image; the buffers then hold that slice of the padded image and the used length covers them.
   */
  lemma ReadRequest(id: seq<Byte>, queue: seq<Desc>, head: nat, table: seq<Desc>, flushed: bool, guest: seq<Byte>,
                    disk: Disk,
                    start: Start, sector: nat, data: seq<nat>, end: nat)
    requires ValidDisk(disk) && TablesInGuest(queue, head, table, |guest|)
    requires WellFormed(queue, head, table, guest, start, Header(TYPE_IN, sector), data, end)
    requires data != [] && WholeSectors(start.desc, data)
    requires AllSeparate(Buffers(start.desc, data))
    requires ApartFrom(Buffers(start.desc, data), Buffer(start.desc[end].addr, 1))
    ensures var o := Request(id, queue, head, table, flushed, guest, disk);
            var bs, at := Buffers(start.desc, data), sector * SECTOR;
            && o.disk == disk && o.guest[start.desc[end].addr] == StatusByte(o.result)
            && (o.result == Ok <==> Usable(start.desc, data, true) && at + TotalLength(bs) <= |Padded(disk.image)|)
            && (o.result == Ok ==>
                  && AllInGuest(bs, |guest|)
                  && Gather(o.guest, bs) == Window(Padded(disk.image), at, TotalLength(bs))
                  && o.written == (TotalLength(bs) + 1) % U32)
  {
    hide DataRun, HeaderAt, HeaderInGuest, IsChain, Padded, Window, Scatter;
    hide Usable, Follow, HasHeader, Request, Gather, ApartFrom, AllSeparate, WholeSectors;
    var p := Progress(guest, disk, sector, 0, Ok);
    var bs := Buffers(start.desc, data);
    RequestRuns(id, queue, head, table, flushed, guest, disk, start, Header(TYPE_IN, sector), data, end);
    ReadRun(id, start.desc, data, p);
    var r := DataRun(id, TYPE_IN, start.desc, data, p);
    FinishRead(start.desc[end], flushed, r);
    hide Buffers, TotalLength, AllInGuest, Splice, Finish, TableInGuest;
    if r.status == Ok {
      CountOn(0, TotalLength(bs), 1);
      FullGather(guest, bs, Window(Padded(disk.image), sector * SECTOR, TotalLength(bs)));
      StatusElsewhere(r.guest, bs, start.desc[end].addr, StatusByte(Ok));
    }
  }

  /** A write request succeeds exactly on a writable disk inside the image; it then stores the buffers at its sector. */
  lemma WriteRequest(id: seq<Byte>, queue: seq<Desc>, head: nat, table: seq<Desc>, flushed: bool, guest: seq<Byte>,
                     disk: Disk,
                     start: Start, sector: nat, data: seq<nat>, end: nat)
    requires ValidDisk(disk) && TablesInGuest(queue, head, table, |guest|)
    requires WellFormed(queue, head, table, guest, start, Header(TYPE_OUT, sector), data, end)
    requires data != [] && WholeSectors(start.desc, data)
    ensures var o := Request(id, queue, head, table, flushed, guest, disk);
            var bs, at := Buffers(start.desc, data), sector * SECTOR;
            && o.guest == Splice(guest, start.desc[end].addr, [StatusByte(o.result)]) && o.written == 1
            && (o.result == Ok <==>
                disk.writable && Usable(start.desc, data, false) && at + TotalLength(bs) <= |disk.image|)
            && (o.result == Ok ==>
                  && AllInGuest(bs, |guest|)
                  && o.disk == disk.(image := Splice(disk.image, at, Gather(guest, bs))))
  {
    hide DataRun, HeaderAt, HeaderInGuest, TableInGuest, IsChain, Padded, Gather, Usable;
    var p := Progress(guest, disk, sector, 0, Ok);
    RequestRuns(id, queue, head, table, flushed, guest, disk, start, Header(TYPE_OUT, sector), data, end);
    WriteRun(id, start.desc, data, p);
  }

  // ---------------------------------------------------------------- every request

  /** Whatever the tables hold: sizes and flags stay, and only writes to a writable disk change the image. */
  lemma {:induction false} RunKeeps(id: seq<Byte>, kind: nat, desc: seq<Desc>, data: seq<nat>, p: Progress)
    requires ValidDisk(p.disk) && TableInGuest(desc, |p.guest|)
    requires forall i :: 0 <= i < |data| ==> data[i] < |desc|
    ensures var r := DataRun(id, kind, desc, data, p);
            && |r.disk.image| == |p.disk.image| && r.disk.writable == p.disk.writable
            && (!p.disk.writable || kind != TYPE_OUT ==> r.disk == p.disk)
    decreases |data|
  {
    if data != [] {
      RunKeeps(id, kind, desc, data[1..], DataStep(id, kind, desc[data[0]], p));
    }
  }

  /** A request and the guest memory it finds. */
  datatype Call = Call(queue: seq<Desc>, head: nat, table: seq<Desc>, flushed: bool, guest: seq<Byte>)

  predicate CallsInGuest(calls: seq<Call>) {
    forall i :: 0 <= i < |calls| ==> TablesInGuest(calls[i].queue, calls[i].head, calls[i].table, |calls[i].guest|)
  }

  /** The disk after the requests; between two of them the guest may change its memory at will. */
  function Serve(id: seq<Byte>, disk: Disk, calls: seq<Call>): (r: Disk)
    requires ValidDisk(disk) && CallsInGuest(calls)
    ensures ValidDisk(r)
  {
    if calls == [] then disk
    else
      var n := |calls| - 1;
      var c := calls[n];
      Request(id, c.queue, c.head, c.table, c.flushed, c.guest, Serve(id, disk, calls[..n])).disk
  }

  /**
   Over every run of requests the image of a disk whose writable flag is clear stays as it was, and no image
   changes size.
   */
  lemma {:induction false} ReadOnlyImageKept(id: seq<Byte>, disk: Disk, calls: seq<Call>)
    requires ValidDisk(disk) && CallsInGuest(calls)
    ensures var r := Serve(id, disk, calls);
            |r.image| == |disk.image| && r.writable == disk.writable && (!disk.writable ==> r == disk)
    decreases |calls|
  {
    if calls != [] {
      var n := |calls| - 1;
      ReadOnlyImageKept(id, disk, calls[..n]);
      RequestKeeps(id, calls[n], Serve(id, disk, calls[..n]));
    }
  }

  lemma RequestKeeps(id: seq<Byte>, c: Call, disk: Disk)
    requires ValidDisk(disk) && TablesInGuest(c.queue, c.head, c.table, |c.guest|)
    ensures var r := Request(id, c.queue, c.head, c.table, c.flushed, c.guest, disk).disk;
            |r.image| == |disk.image| && r.writable == disk.writable && (!disk.writable ==> r == disk)
  {
    hide DataRun, HeaderAt, Follow;
    var start := Resolve(c.queue, c.head, c.table);
    if start.Some? && HasHeader(start.value) {
      var desc := start.value.desc;
      var first := desc[start.value.head];
      var header := HeaderAt(c.guest, first.addr);
      var walk := Follow(desc, first.next, |desc|);
      RunKeeps(id, header.kind, desc, walk.data, Progress(c.guest, disk, header.sector, 0, Ok));
    }
  }
}
