/**
 The block device in place: guest memory and image are changed step by step (drivers/orlix/virtio/mmio.c,
 boot/resources.c).
 */
module BlockDevice {
  import opened HostTypes
  import opened Slices
  import opened GuestBuffers
  import opened BlockChain
  import opened BlockImage
  import opened BlockRequest
  import opened Virtqueue

  /** What a head meets when it is handled: its indirect table, and whether the host can flush the image. */
  datatype Meets = Meets(table: seq<Desc>, flushed: bool)

  /** Device state and used entries after some heads. */
  datatype Service = Service(guest: seq<Byte>, disk: Disk, entries: seq<UsedElem>)

  /** The heads from free-running counter `base` on are handled in order, one for each element of `meets`. */
  ghost function Served(id: seq<Byte>, desc: seq<Desc>, avail: seq<nat>, meets: seq<Meets>,
                        guest: seq<Byte>, disk: Disk, base: nat): (r: Service)
    requires ValidDisk(disk) && |avail| > 0 && HeadsInGuest(desc, avail, meets, |guest|)
    ensures ValidDisk(r.disk) && |r.guest| == |guest| && |r.entries| == |meets|
  {
    if meets == [] then Service(guest, disk, [])
    else
      var n := |meets| - 1;
      var s := Served(id, desc, avail, meets[..n], guest, disk, base);
      var head := avail[(base + n) % |avail|];
      var o := Request(id, desc, head, meets[n].table, meets[n].flushed, s.guest, s.disk);
      Service(o.guest, o.disk, s.entries + [UsedElem(head, if o.result == Ok then o.written else 1)])
  }

  ghost predicate HeadsInGuest(desc: seq<Desc>, avail: seq<nat>, meets: seq<Meets>, guestSize: nat) {
    forall i, j :: 0 <= i < |avail| && 0 <= j < |meets| ==> TablesInGuest(desc, avail[i], meets[j].table, guestSize)
  }

  lemma HeadInGuest(desc: seq<Desc>, avail: seq<nat>, meets: seq<Meets>, guestSize: nat, i: nat, j: nat)
    requires HeadsInGuest(desc, avail, meets, guestSize) && i < |avail| && j < |meets|
    ensures TablesInGuest(desc, avail[i], meets[j].table, guestSize)
    ensures HeadsInGuest(desc, avail, meets[..j], guestSize) && HeadsInGuest(desc, avail, meets[..j + 1], guestSize)
  {
  }

  lemma HeadsOfNone(id: seq<Byte>, desc: seq<Desc>, avail: seq<nat>, meets: seq<Meets>, guest: seq<Byte>, disk: Disk,
                    base: nat)
    requires ValidDisk(disk) && |avail| > 0
    ensures HeadsInGuest(desc, avail, meets[..0], |guest|)
    ensures Served(id, desc, avail, meets[..0], guest, disk, base) == Service(guest, disk, [])
  {
  }

  lemma ServeNext(id: seq<Byte>, desc: seq<Desc>, avail: seq<nat>, meets: seq<Meets>, guest: seq<Byte>, disk: Disk,
                  base: nat,
                  j: nat, head: nat, s: Service, o: Outcome)
    requires ValidDisk(disk) && |avail| > 0 && j < |meets|
    requires HeadsInGuest(desc, avail, meets[..j], |guest|) && HeadsInGuest(desc, avail, meets[..j + 1], |guest|)
    requires s == Served(id, desc, avail, meets[..j], guest, disk, base) && head == avail[(base + j) % |avail|]
    requires TablesInGuest(desc, head, meets[j].table, |s.guest|) && ValidDisk(s.disk)
    requires o == Request(id, desc, head, meets[j].table, meets[j].flushed, s.guest, s.disk)
    ensures Served(id, desc, avail, meets[..j + 1], guest, disk, base)
         == Service(o.guest, o.disk, s.entries + [UsedElem(head, if o.result == Ok then o.written else 1)])
  {
    hide Request;
    assert meets[..j + 1][..j] == meets[..j];
  }

  class Device {
    const id: seq<Byte>
    var guest: seq<Byte>
    var disk: Disk

    constructor (id: seq<Byte>, guest: seq<Byte>, disk: Disk)
      ensures this.id == id && this.guest == guest && this.disk == disk
    {
      this.id, this.guest, this.disk := id, guest, disk;
    }

    /** `orlix_host_block_read`: the buffer is cleared, then filled with what the file has. */
    method ReadImage(sector: nat, addr: nat, length: nat) returns (ok: bool)
      requires addr + length <= |guest|
      modifies this`guest
      ensures ok == HostRead(disk, sector, length).Some?
      ensures guest == if ok then Splice(old(guest), addr, HostRead(disk, sector, length).value) else old(guest)
    {
      if !InCapacity(disk, sector, length) {
        return false;
      }
      var offset := sector * SECTOR;
      guest := Splice(guest, addr, Zeros(length));
      if offset >= |disk.image| {
        return true;
      }
      var n := if |disk.image| - offset < length then |disk.image| - offset else length;
      guest := Splice(guest, addr, disk.image[offset..offset + n]);
      assert guest == Splice(old(guest), addr, disk.image[offset..offset + n] + Zeros(length - n));
      return true;
    }

    /** `orlix_host_block_write`. */
    method WriteImage(sector: nat, bytes: seq<Byte>) returns (ok: bool)
      requires ValidDisk(disk)
      modifies this`disk
      ensures ValidDisk(disk) && ok == HostWrite(old(disk), sector, bytes).Some?
      ensures disk == if ok then HostWrite(old(disk), sector, bytes).value else old(disk)
    {
      if !disk.writable || !InCapacity(disk, sector, |bytes|) {
        return false;
      }
      disk := disk.(image := Splice(disk.image, sector * SECTOR, bytes));
      return true;
    }

    /** `orlix_virtio_mmio_process_block_data`. */
    method ProcessBlockData(kind: nat, sector: nat, d: Desc, before: nat) returns (status: Status, written: nat)
      requires ValidDisk(disk) && DescInGuest(d, |guest|)
      modifies this
      ensures Progress(guest, disk, sector, written, status)
           == ProcessData(id, kind, d, Progress(old(guest), old(disk), sector, before, Ok))
    {
      written := before;
      if d.indirect || !Addressable(d.addr, d.len) {
        return IoErr, written;
      }
      if kind == TYPE_IN {
        if !d.write {
          return IoErr, written;
        }
        var ok := ReadImage(sector, d.addr, d.len);
        if !ok {
          return IoErr, written;
        }
        written := (written + d.len) % U32;
        return Ok, written;
      } else if kind == TYPE_OUT {
        if d.write {
          return IoErr, written;
        }
        var ok := WriteImage(sector, guest[d.addr..d.addr + d.len]);
        return if ok then Ok else IoErr, written;
      } else if kind == TYPE_GET_ID {
        if !d.write {
          return IoErr, written;
        }
        guest := Splice(guest, d.addr, IdField(id, d.len));
        written := (written + d.len) % U32;
        return Ok, written;
      }
      return Unsupported, written;
    }

    /** The status descriptor at the end of a request. */
    method FinishRequest(kind: nat, d: Desc, flushed: bool, ghost sector: nat, before: nat, reached: Status)
      returns (result: Status, written: nat)
      requires ValidDisk(disk) && DescInGuest(d, |guest|)
      modifies this`guest
      ensures Outcome(guest, disk, written, result)
            == Finish(kind, d, flushed, Progress(old(guest), disk, sector, before, reached))
    {
      if !d.write || d.hasNext || d.indirect || d.len < 1 || !Addressable(d.addr, 1) {
        return IoErr, before;
      }
      result := if KnownType(kind) then reached else Unsupported;
      if kind == TYPE_FLUSH && !flushed {
        result := IoErr;
      }
      guest := Splice(guest, d.addr, [StatusByte(result)]);
      written := (before + 1) % U32;
    }

    /** `orlix_virtio_mmio_process_block_request`: the data is handled while the chain is walked. */
    method ProcessRequest(queue: seq<Desc>, head: nat, table: seq<Desc>, flushed: bool)
      returns (result: Status, written: nat)
      requires ValidDisk(disk) && TablesInGuest(queue, head, table, |guest|)
      modifies this
      ensures Outcome(guest, disk, written, result) == Request(id, queue, head, table, flushed, old(guest), old(disk))
    {
      hide HeaderAt, ProcessData, Finish, LittleEndian;
      written := 0;
      var start := Resolve(queue, head, table);
      if start == None || !HasHeader(start.value) {
        return IoErr, written;
      }
      var desc, first := start.value.desc, start.value.desc[start.value.head];
      var header := HeaderAt(guest, first.addr);
      var kind, status := header.kind, Ok;
      var sector: nat, index: nat, guard: nat := header.sector, first.next, 0;
      ghost var walk := Follow(desc, index, |desc|);
      ghost var end := DataRun(id, kind, desc, walk.data, Progress(guest, disk, sector, 0, Ok));
      while guard < |desc|
        invariant guard <= |desc| && ValidDisk(disk) && |guest| == |old(guest)|
        invariant Follow(desc, index, |desc| - guard).status == walk.status
        invariant DataRun(id, kind, desc, Follow(desc, index, |desc| - guard).data,
                          Progress(guest, disk, sector, written, status)) == end
      {
        if index >= |desc| || desc[index].indirect {
          return IoErr, written;
        }
        if !desc[index].hasNext {
          break;
        }
        ghost var p := Progress(guest, disk, sector, written, status);
        ghost var rest := Follow(desc, desc[index].next, |desc| - guard - 1).data;
        assert ([index] + rest)[1..] == rest;
        if status == Ok {
          status, written := ProcessBlockData(kind, sector, desc[index], written);
        }
        if status == Ok {
          sector := (sector + desc[index].len / SECTOR) % ADDRESS_SPACE;
        }
        assert Progress(guest, disk, sector, written, status) == DataStep(id, kind, desc[index], p);
        index := desc[index].next;
        guard := guard + 1;
      }
      if guard == |desc| {
        return IoErr, written;
      }
      result, written := FinishRequest(kind, desc[index], flushed, sector, written, status);
    }

    /** The drain loop of `orlix_virtio_mmio_process_queue`: a failed request is reported as one byte written. */
    method DrainRequests(queue: Queue, availIdx: nat, desc: seq<Desc>, avail: seq<nat>, meets: seq<Meets>)
      requires ValidDisk(disk) && queue.Valid() && availIdx < WRAP && |avail| == queue.num
      requires HeadsInGuest(desc, avail, meets, |guest|) && |meets| == Pending(availIdx, queue.lastAvail)
      modifies this, queue, queue.usedRing
      ensures queue.Valid() && queue.lastAvail == availIdx
      ensures queue.taken == old(queue.taken) + |meets|
      ensures var s := Served(id, desc, avail, meets, old(guest), old(disk), old(queue.taken));
              queue.published == old(queue.published) + s.entries && guest == s.guest && disk == s.disk
    {
      hide Pending, Slot, Request, Served, TablesInGuest, HeadsInGuest;
      ghost var entries: seq<UsedElem> := [];
      var j := 0;
      HeadsOfNone(id, desc, avail, meets, guest, disk, queue.taken);
      while queue.lastAvail != availIdx
        invariant queue.Valid() && ValidDisk(disk) && |guest| == |old(guest)| && queue.taken == old(queue.taken) + j
        invariant j + Pending(availIdx, queue.lastAvail) == |meets| && HeadsInGuest(desc, avail, meets[..j], |guest|)
        invariant Service(guest, disk, entries)
                == Served(id, desc, avail, meets[..j], old(guest), old(disk), old(queue.taken))
        invariant queue.published == old(queue.published) + entries
        decreases Pending(availIdx, queue.lastAvail)
      {
        ghost var s := Service(guest, disk, entries);
        SlotIsMod(queue.taken, queue.num);
        TakeNext(availIdx, queue.lastAvail, queue.taken, queue.num);
        var head := avail[queue.lastAvail % queue.num];
        HeadInGuest(desc, avail, meets, |guest|, queue.lastAvail % queue.num, j);
        var result, written := ProcessRequest(desc, head, meets[j].table, meets[j].flushed);
        ServeNext(id, desc, avail, meets, old(guest), old(disk), old(queue.taken), j, head, s,
                  Outcome(guest, disk, written, result));
        if result != Ok {
          written := 1;
        }
        queue.PushUsed(head, written);
        queue.Advance();
        entries := entries + [UsedElem(head, written)];
        j := j + 1;
      }
      assert meets[..j] == meets;
    }
  }
}
