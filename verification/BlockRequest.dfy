/**
 What one block request does to guest memory and to the image (drivers/orlix/virtio/mmio.c; section 5.2 of
 VIRTIO 1.2).
 */
module BlockRequest {
  import opened HostTypes
  import opened Slices
  import opened GuestBuffers
  import opened BlockChain
  import opened BlockImage

  const U32: nat := 0x1_0000_0000

  /** Request types, after the barrier bit is dropped. */
  const TYPE_IN: nat := 0
  const TYPE_OUT: nat := 1
  const TYPE_FLUSH: nat := 4
  const TYPE_GET_ID: nat := 8
  const BARRIER: nat := 0x8000_0000

  datatype Status = Ok | IoErr | Unsupported

  function StatusByte(s: Status): Byte {
    match s
    case Ok => 0
    case IoErr => 1
    case Unsupported => 2
  }

  /** Little-endian value. */
  function LittleEndian(bytes: seq<Byte>): nat {
    if bytes == [] then 0 else bytes[0] + 0x100 * LittleEndian(bytes[1..])
  }

  datatype Header = Header(kind: nat, sector: nat)

  /** `struct virtio_blk_outhdr` in guest memory. */
  function HeaderAt(guest: seq<Byte>, addr: nat): Header
    requires addr + 16 <= |guest|
  {
    Header(LittleEndian(guest[addr..addr + 4]) % BARRIER, LittleEndian(guest[addr + 8..addr + 16]))
  }

  /** Device state while the data descriptors of a request are handled. */
  datatype Progress = Progress(guest: seq<Byte>, disk: Disk, sector: nat, written: nat, status: Status)

  /** Every address that passes the pointer check lies in guest memory. */
  predicate TableInGuest(desc: seq<Desc>, guestSize: nat) {
    forall i :: 0 <= i < |desc| ==> DescInGuest(desc[i], guestSize)
  }

  predicate DescInGuest(d: Desc, guestSize: nat) {
    && (Addressable(d.addr, d.len) ==> d.addr + d.len <= guestSize)
    && (Addressable(d.addr, 1) ==> d.addr + 1 <= guestSize)
  }

  /** Device identifier as `strscpy` leaves it in a cleared buffer. */
  function IdField(id: seq<Byte>, length: nat): (r: seq<Byte>)
    ensures |r| == length
    ensures length > 0 ==> r[length - 1] == 0
  {
    if length == 0 then []
    else
      var n := if |id| < length - 1 then |id| else length - 1;
      id[..n] + Zeros(length - n)
  }

  /** `orlix_virtio_mmio_process_block_data`; only the status says that a step failed. */
  function ProcessData(id: seq<Byte>, kind: nat, d: Desc, p: Progress): (r: Progress)
    requires ValidDisk(p.disk) && DescInGuest(d, |p.guest|)
    ensures ValidDisk(r.disk) && |r.guest| == |p.guest| && r.sector == p.sector
  {
    if d.indirect || !Addressable(d.addr, d.len) then p.(status := IoErr)
    else if kind == TYPE_IN then
      if !d.write then p.(status := IoErr)
      else match HostRead(p.disk, p.sector, d.len)
      case None => p.(status := IoErr)
      case Some(bytes) =>
        p.(guest := Splice(p.guest, d.addr, bytes), written := (p.written + d.len) % U32, status := Ok)
    else if kind == TYPE_OUT then
      if d.write then p.(status := IoErr)
      else match HostWrite(p.disk, p.sector, p.guest[d.addr..d.addr + d.len])
      case None => p.(status := IoErr)
      case Some(disk) => p.(disk := disk, status := Ok)
    else if kind == TYPE_GET_ID then
      if !d.write then p.(status := IoErr)
      else p.(guest := Splice(p.guest, d.addr, IdField(id, d.len)), written := (p.written + d.len) % U32, status := Ok)
    else p.(status := Unsupported)
  }

  /** One data descriptor of the walk: skipped after a failure, and the sector moves on after a success. */
  function DataStep(id: seq<Byte>, kind: nat, d: Desc, p: Progress): (r: Progress)
    requires ValidDisk(p.disk) && DescInGuest(d, |p.guest|)
    ensures ValidDisk(r.disk) && |r.guest| == |p.guest|
  {
    if p.status != Ok then p
    else
      var q := ProcessData(id, kind, d, p);
      if q.status == Ok then q.(sector := (q.sector + d.len / SECTOR) % ADDRESS_SPACE) else q
  }

  /** The data descriptors at the given indices, in order. */
  function DataRun(id: seq<Byte>, kind: nat, desc: seq<Desc>, data: seq<nat>, p: Progress): (r: Progress)
    requires ValidDisk(p.disk) && TableInGuest(desc, |p.guest|)
    requires forall i :: 0 <= i < |data| ==> data[i] < |desc|
    ensures ValidDisk(r.disk) && |r.guest| == |p.guest|
    decreases |data|
  {
    if data == [] then p else DataRun(id, kind, desc, data[1..], DataStep(id, kind, desc[data[0]], p))
  }

  datatype Outcome = Outcome(guest: seq<Byte>, disk: Disk, written: nat, result: Status)

  predicate KnownType(kind: nat) {
    kind == TYPE_IN || kind == TYPE_OUT || kind == TYPE_GET_ID || kind == TYPE_FLUSH
  }

  /** The end of a request that reached the status descriptor `d`. */
  function Finish(kind: nat, d: Desc, flushed: bool, p: Progress): (r: Outcome)
    requires ValidDisk(p.disk) && DescInGuest(d, |p.guest|)
    ensures ValidDisk(r.disk) && |r.guest| == |p.guest|
  {
    if !d.write || d.hasNext || d.indirect || d.len < 1 || !Addressable(d.addr, 1) then
      Outcome(p.guest, p.disk, p.written, IoErr)
    else
      var known := if KnownType(kind) then p.status else Unsupported;
      var status := if kind == TYPE_FLUSH && !flushed then IoErr else known;
      Outcome(Splice(p.guest, d.addr, [StatusByte(status)]), p.disk, (p.written + 1) % U32, status)
  }

  /** The header is read whole, whatever length its descriptor gives. */
  predicate HeaderInGuest(desc: seq<Desc>, head: nat, guestSize: nat) {
    head < |desc| && desc[head].addr != 0 ==> desc[head].addr + 16 <= guestSize
  }

  /** What the device may assume about a request's tables. */
  predicate TablesInGuest(queue: seq<Desc>, head: nat, table: seq<Desc>, guestSize: nat) {
    && TableInGuest(queue, guestSize) && TableInGuest(table, guestSize)
    && HeaderInGuest(queue, head, guestSize) && HeaderInGuest(table, 0, guestSize)
  }

  /** The requests that get as far as the walk. */
  predicate HasHeader(start: Start)
    requires start.head < |start.desc|
  {
    var d := start.desc[start.head];
    !d.write && !d.indirect && d.hasNext && Addressable(d.addr, d.len) && d.next < |start.desc|
  }

  /** `orlix_virtio_mmio_process_block_request`; `flushed` says whether the host could flush the image. */
  function Request(id: seq<Byte>, queue: seq<Desc>, head: nat, table: seq<Desc>, flushed: bool, guest: seq<Byte>,
                   disk: Disk): (r: Outcome)
    requires ValidDisk(disk) && TablesInGuest(queue, head, table, |guest|)
    ensures ValidDisk(r.disk) && |r.guest| == |guest|
  {
    var start := Resolve(queue, head, table);
    if start == None || !HasHeader(start.value) then Outcome(guest, disk, 0, IoErr)
    else
      var desc := start.value.desc;
      var first := desc[start.value.head];
      var header := HeaderAt(guest, first.addr);
      var walk := Follow(desc, first.next, |desc|);
      var p := DataRun(id, header.kind, desc, walk.data, Progress(guest, disk, header.sector, 0, Ok));
      if walk.status == None then Outcome(p.guest, p.disk, p.written, IoErr)
      else Finish(header.kind, desc[walk.status.value], flushed, p)
  }
}
