/**
 The console input queue (drivers/orlix/virtio/mmio.c) over the host input ring: typed bytes are
 moved into the guest buffers of the heads the driver has made available, while the host keeps
 enqueueing between any two reads.
 */
module ConsoleInput {
  import opened HostTypes
  import opened Slices
  import opened GuestBuffers
  import opened Virtqueue
  import opened ConsoleRing

  const QUEUE_SIZE: nat := 128
  const U32: nat := 0x1_0000_0000
  /** A head takes at most one ring of bytes for each descriptor the walk visits. */
  const MOST: nat := QUEUE_SIZE * CAPACITY

  /** Buffers the walk from `index` would fill, in order: it stops at a bad index, a read-only or null buffer. */
  function InputBuffers(desc: seq<Desc>, index: nat, guard: nat): (r: seq<Buffer>)
    requires |desc| == QUEUE_SIZE
    ensures |r| <= guard
    decreases guard
  {
    if guard == 0 || index >= QUEUE_SIZE then []
    else
      var d := desc[index];
      if !d.write || !Addressable(d.addr, d.len) then []
      else [Buffer(d.addr, d.len)] + if d.hasNext then InputBuffers(desc, d.next, guard - 1) else []
  }

  function ItemOr<T>(s: seq<T>, k: nat, none: T): T {
    if k < |s| then s[k] else none
  }

  function Chain(desc: seq<Desc>, head: nat): seq<Buffer>
    requires |desc| == QUEUE_SIZE
  {
    InputBuffers(desc, head, QUEUE_SIZE)
  }

  ghost predicate TableInGuest(desc: seq<Desc>, guestSize: nat) {
    && |desc| == QUEUE_SIZE
    && forall i :: 0 <= i < |desc| && Addressable(desc[i].addr, desc[i].len) ==> desc[i].addr + desc[i].len <= guestSize
  }

  lemma {:induction false} ChainInGuest(desc: seq<Desc>, index: nat, guard: nat, guestSize: nat)
    requires TableInGuest(desc, guestSize)
    ensures AllInGuest(InputBuffers(desc, index, guard), guestSize)
    decreases guard
  {
    if guard > 0 && index < QUEUE_SIZE && desc[index].hasNext {
      ChainInGuest(desc, desc[index].next, guard - 1, guestSize);
    }
  }

  lemma NextBuffer(desc: seq<Desc>, index: nat, left: nat)
    requires |desc| == QUEUE_SIZE
    ensures InputBuffers(desc, index, left) ==
            if left == 0 || index >= QUEUE_SIZE || !desc[index].write
               || !Addressable(desc[index].addr, desc[index].len) then []
            else [Buffer(desc[index].addr, desc[index].len)] +
                 if desc[index].hasNext then InputBuffers(desc, desc[index].next, left - 1) else []
  {
  }

  lemma EmptyScatter(guest: seq<Byte>)
    ensures AllInGuest([], |guest|) && TotalLength([]) == 0 && Scatter(guest, [], []) == guest
  {
  }

  /** Of all the bytes, `front` has left and `back` is still there. */
  ghost predicate Splits<T>(all: seq<T>, front: seq<T>, back: seq<T>) {
    front + back == all
  }

  lemma SplitMoves<T>(front: seq<T>, moved: seq<T>, back: seq<T>, all: seq<T>)
    requires Splits(all, front, moved + back)
    ensures Splits(all, front + moved, back)
  {
    assert (front + moved) + back == front + (moved + back);
  }

  lemma SplitGrows<T>(front: seq<T>, back: seq<T>, more: seq<T>, all: seq<T>)
    requires Splits(all, front, back)
    ensures Splits(all + more, front, back + more)
  {
    assert front + (back + more) == (front + back) + more;
  }

  ghost predicate Grows<T>(before: seq<T>, after: seq<T>) {
    before <= after
  }

  lemma GrowsOn<T>(a: seq<T>, b: seq<T>, c: seq<T>)
    requires Grows(a, b) && Grows(b, c)
    ensures Grows(a, c)
  {
  }

  lemma SplitNothing<T>(all: seq<T>)
    ensures Splits(all, all, [])
  {
  }

  lemma SplitAll<T>(all: seq<T>)
    ensures Splits(all, [], all)
  {
  }

  lemma NothingMoved<T>(all: seq<T>, front: seq<T>, back: seq<T>)
    requires Splits(all, front, back)
    ensures back == [] ==> all == front
  {
  }

  /** A head that was handled, with its buffers at the time and the bytes that were put into them. */
  datatype Delivery = Delivery(head: nat, buffers: seq<Buffer>, payload: seq<Byte>)

  /** The bytes of the deliveries, in order. */
  ghost function Bytes(ds: seq<Delivery>): seq<Byte> {
    if ds == [] then [] else Bytes(ds[..|ds| - 1]) + ds[|ds| - 1].payload
  }

  /** What the driver finds in the used ring for the deliveries. */
  ghost function UsedEntries(ds: seq<Delivery>): (r: seq<UsedElem>)
    ensures |r| == |ds|
  {
    seq(|ds|, i requires 0 <= i < |ds| => UsedElem(ds[i].head, |ds[i].payload|))
  }

  lemma BytesNext(ds: seq<Delivery>, d: Delivery)
    ensures Bytes(ds + [d]) == Bytes(ds) + d.payload
  {
    assert (ds + [d])[..|ds|] == ds;
  }

  lemma UsedNext(ds: seq<Delivery>, d: Delivery)
    ensures UsedEntries(ds + [d]) == UsedEntries(ds) + [UsedElem(d.head, |d.payload|)]
  {
  }

  ghost predicate DeliveriesInGuest(ds: seq<Delivery>, guestSize: nat) {
    forall i :: 0 <= i < |ds| ==> AllInGuest(ds[i].buffers, guestSize)
  }

  /** Guest memory after the deliveries. */
  ghost function Deliver(guest: seq<Byte>, ds: seq<Delivery>): (r: seq<Byte>)
    requires DeliveriesInGuest(ds, |guest|)
    ensures |r| == |guest|
  {
    if ds == [] then guest
    else
      var last := ds[|ds| - 1];
      Scatter(Deliver(guest, ds[..|ds| - 1]), last.buffers, last.payload)
  }

  ghost predicate Apart(a: seq<Buffer>, b: seq<Buffer>) {
    forall i, j :: 0 <= i < |a| && 0 <= j < |b| ==> Separate(a[i], b[j])
  }

  lemma ScatterApart(guest: seq<Byte>, bs: seq<Buffer>, payload: seq<Byte>, others: seq<Buffer>)
    requires AllInGuest(bs, |guest|) && AllInGuest(others, |guest|) && Apart(others, bs)
    ensures Gather(Scatter(guest, bs, payload), others) == Gather(guest, others)
  {
    var after := Scatter(guest, bs, payload);
    forall a | 0 <= a < |guest| && Touches(others, a)
      ensures after[a] == guest[a]
    {
      var k :| 0 <= k < |others| && others[k].addr <= a < others[k].addr + others[k].len;
      assert forall j | 0 <= j < |bs| :: Separate(others[k], bs[j]);
      ScatterElsewhere(guest, bs, payload, a);
    }
    GatherUnchanged(guest, after, others);
  }

  /**
   A driver that keeps the buffers of its heads apart reads, in the buffers of each head and up to
   the used length, the bytes delivered for that head, whatever was delivered after it.
   */
  lemma {:induction false} DeliveredReadable(guest: seq<Byte>, ds: seq<Delivery>, i: nat)
    requires DeliveriesInGuest(ds, |guest|) && i < |ds|
    requires AllSeparate(ds[i].buffers) && |ds[i].payload| <= TotalLength(ds[i].buffers)
    requires forall j :: i < j < |ds| ==> Apart(ds[i].buffers, ds[j].buffers)
    ensures Gather(Deliver(guest, ds), ds[i].buffers)[..|ds[i].payload|] == ds[i].payload
    decreases |ds|
  {
    hide Scatter, Separate, AllInGuest, TotalLength;
    var n := |ds| - 1;
    var rest := ds[..n];
    var before := Deliver(guest, rest);
    if i == n {
      GatherScatter(before, ds[n].buffers, ds[n].payload);
    } else {
      assert rest[i] == ds[i];
      DeliveredReadable(guest, rest, i);
      ScatterApart(before, ds[n].buffers, ds[n].payload, ds[i].buffers);
    }
  }

  /** The deliveries are for consecutive heads of the avail ring, from free-running counter `base` on. */
  ghost predicate TakenInOrder(desc: seq<Desc>, avail: seq<nat>, base: nat, ds: seq<Delivery>)
    requires |desc| == QUEUE_SIZE && |avail| > 0
  {
    forall i :: 0 <= i < |ds| ==>
      && ds[i].head == avail[(base + i) % |avail|] && ds[i].buffers == Chain(desc, ds[i].head)
      && |ds[i].payload| <= TotalLength(ds[i].buffers)
  }

  /** What a drain changes. */
  datatype Snapshot = Snapshot(guest: seq<Byte>, accepted: seq<Byte>, delivered: seq<Byte>, log: seq<Delivery>)

  /**
   From `s` to `n` the deliveries `ds` were for consecutive heads, the first of them were published in
   that order, guest memory was changed by their payloads and by nothing else, and these payloads are
   the bytes that were taken from the ring.
   */
  ghost predicate Drained(desc: seq<Desc>, avail: seq<nat>, base: nat, s: Snapshot, n: Snapshot,
                          published: seq<Delivery>, ds: seq<Delivery>)
  {
    && |desc| == QUEUE_SIZE && |avail| > 0 && TakenInOrder(desc, avail, base, ds)
    && DeliveriesInGuest(ds, |s.guest|) && n.guest == Deliver(s.guest, ds)
    && Grows(s.accepted, n.accepted) && n.delivered == s.delivered + Bytes(ds)
    && published <= ds && n.log == s.log + published
  }

  lemma NothingDrained(desc: seq<Desc>, avail: seq<nat>, base: nat, s: Snapshot)
    requires |desc| == QUEUE_SIZE && |avail| > 0
    ensures Drained(desc, avail, base, s, s, [], [])
  {
  }

  /** One head was taken from the avail ring, its payload put into its buffers, and published or left. */
  ghost predicate Took(desc: seq<Desc>, avail: seq<nat>, k: nat, n: Snapshot, d: Delivery, m: Snapshot, done: bool) {
    && |desc| == QUEUE_SIZE && |avail| > 0 && d.head == avail[k % |avail|] && d.buffers == Chain(desc, d.head)
    && |d.payload| <= TotalLength(d.buffers) && AllInGuest(d.buffers, |n.guest|)
    && m.guest == Scatter(n.guest, d.buffers, d.payload)
    && Grows(n.accepted, m.accepted) && Splits(m.delivered, n.delivered, d.payload)
    && m.log == if done then n.log + [d] else n.log
  }

  /** A payload was put into the buffers of a head, and nothing was published. */
  ghost predicate Filled(desc: seq<Desc>, n: Snapshot, d: Delivery, m: Snapshot) {
    && |desc| == QUEUE_SIZE && d.buffers == Chain(desc, d.head)
    && |d.payload| <= TotalLength(d.buffers) && AllInGuest(d.buffers, |n.guest|)
    && m.guest == Scatter(n.guest, d.buffers, d.payload)
    && Grows(n.accepted, m.accepted) && Splits(m.delivered, n.delivered, d.payload) && m.log == n.log
  }

  lemma TookFilled(desc: seq<Desc>, avail: seq<nat>, k: nat, n: Snapshot, d: Delivery, m: Snapshot, after: Snapshot,
                   done: bool)
    requires Filled(desc, n, d, m) && |avail| > 0 && d.head == avail[k % |avail|]
    requires after == m.(log := if done then n.log + [d] else n.log)
    ensures Took(desc, avail, k, n, d, after, done)
  {
    hide InputBuffers, TotalLength, AllInGuest, Scatter, Grows, Splits;
  }

  /** One more head, published or left. */
  lemma DrainedNext(desc: seq<Desc>, avail: seq<nat>, base: nat, s: Snapshot, n: Snapshot, ds: seq<Delivery>,
                    d: Delivery, m: Snapshot, done: bool)
    requires Drained(desc, avail, base, s, n, ds, ds) && Took(desc, avail, base + |ds|, n, d, m, done)
    ensures Drained(desc, avail, base, s, m, if done then ds + [d] else ds, ds + [d])
  {
    hide AllInGuest, Scatter, InputBuffers, TotalLength, TakenInOrder, DeliveriesInGuest, Deliver, Bytes, Grows;
    InOrderNext(desc, avail, base, ds, d);
    DeliverNext(s.guest, ds, d);
    BytesNext(ds, d);
    GrowsOn(s.accepted, n.accepted, m.accepted);
    Join(s.delivered, Bytes(ds), d.payload);
    Join(s.log, ds, [d]);
  }

  lemma InOrderNext(desc: seq<Desc>, avail: seq<nat>, base: nat, ds: seq<Delivery>, d: Delivery)
    requires |desc| == QUEUE_SIZE && |avail| > 0 && TakenInOrder(desc, avail, base, ds)
    requires d.head == avail[(base + |ds|) % |avail|] && d.buffers == Chain(desc, d.head)
    requires |d.payload| <= TotalLength(d.buffers)
    ensures TakenInOrder(desc, avail, base, ds + [d])
  {
    hide InputBuffers, TotalLength;
  }

  lemma DeliverNext(guest: seq<Byte>, ds: seq<Delivery>, d: Delivery)
    requires DeliveriesInGuest(ds, |guest|) && AllInGuest(d.buffers, |guest|)
    ensures DeliveriesInGuest(ds + [d], |guest|)
    ensures Deliver(guest, ds + [d]) == Scatter(Deliver(guest, ds), d.buffers, d.payload)
  {
    hide AllInGuest, Scatter;
    assert (ds + [d])[..|ds|] == ds;
  }

  lemma Join<T>(a: seq<T>, b: seq<T>, c: seq<T>)
    ensures a + (b + c) == (a + b) + c
  {
  }

  lemma LastAvailSlot(queue: Queue)
    requires queue.Valid()
    ensures queue.lastAvail % queue.num == queue.taken % queue.num
  {
    SlotIsMod(queue.taken, queue.num);
  }

  lemma NextHead(queue: Queue, availIdx: nat)
    requires queue.Valid() && availIdx < WRAP && queue.lastAvail != availIdx
    ensures Pending(availIdx, (queue.lastAvail + 1) % WRAP) == Pending(availIdx, queue.lastAvail) - 1
  {
    TakeNext(availIdx, queue.lastAvail, queue.taken, queue.num);
  }

  class ConsoleDevice {
    const ring: InputRing
    const queue: Queue
    var desc: seq<Desc>
    var guest: seq<Byte>
    /** All bytes the ring has accepted, all bytes taken from it, and the heads published so far. */
    ghost var accepted: seq<Byte>
    ghost var delivered: seq<Byte>
    ghost var log: seq<Delivery>

    /** Conservation: the bytes taken from the ring, then those still in it, are the bytes accepted. */
    ghost predicate Reading()
      reads this, ring, ring.data
    {
      ring.Valid() && TableInGuest(desc, |guest|) && Splits(accepted, delivered, ring.Contents())
    }

    /** The bytes taken are those of the published entries, in order. */
    ghost predicate Valid()
      reads this, ring, ring.data, queue, queue.usedRing
    {
      Reading() && queue.Valid() && queue.published == UsedEntries(log) && delivered == Bytes(log)
    }

    ghost function State(): Snapshot
      reads this
    {
      Snapshot(guest, accepted, delivered, log)
    }

    constructor (ring: InputRing, queue: Queue, desc: seq<Desc>, guest: seq<Byte>)
      requires ring.Valid() && queue.Valid() && TableInGuest(desc, |guest|)
      requires ring.Contents() == [] && queue.published == []
      ensures Valid() && accepted == delivered == [] && log == []
      ensures this.ring == ring && this.queue == queue && this.desc == desc && this.guest == guest
    {
      this.ring, this.queue, this.desc, this.guest := ring, queue, desc, guest;
      accepted, delivered, log := [], [], [];
    }

    /** The driver posts other buffers and writes its memory, between any two of the other steps. */
    method Repost(desc: seq<Desc>, guest: seq<Byte>)
      requires Reading() && TableInGuest(desc, |guest|)
      modifies this`desc, this`guest
      ensures Reading() && (old(Valid()) ==> Valid())
      ensures this.desc == desc && this.guest == guest
    {
      this.desc, this.guest := desc, guest;
    }

    /** The host types; what does not fit in the ring is refused. */
    method HostEnqueue(bytes: seq<Byte>) returns (copied: nat)
      requires Reading()
      modifies this`accepted, ring`length, ring.data
      ensures Reading() && (old(Valid()) ==> Valid())
      ensures copied == Min(|bytes|, CAPACITY - old(ring.length))
      ensures accepted == old(accepted) + bytes[..copied] && Grows(old(accepted), accepted)
    {
      hide Splits;
      ghost var before := ring.Contents();
      copied := ring.EnqueueInput(bytes);
      SplitGrows(delivered, before, bytes[..copied], accepted);
      accepted := accepted + bytes[..copied];
    }

    /** One call of `orlix_host_console_read_input` into a guest buffer. */
    method ReadInto(addr: nat, len: nat) returns (payload: seq<Byte>)
      requires Reading() && addr + len <= |guest|
      modifies this`guest, this`delivered, ring`head, ring`length
      ensures Reading() && |payload| <= len && |payload| <= CAPACITY
      ensures |payload| < len ==> ring.length == 0
      ensures delivered == old(delivered) + payload
      ensures guest == Splice(old(guest), addr, payload)
    {
      hide Splits;
      payload := ring.ReadInput(len);
      SplitMoves(delivered, payload, ring.Contents(), accepted);
      delivered := delivered + payload;
      guest := Splice(guest, addr, payload);
    }

    /** A read into one buffer, after what the host typed before it. */
    method ReadBuffer(addr: nat, len: nat, arrival: seq<Byte>) returns (bytes: seq<Byte>)
      requires Reading() && addr + len <= |guest|
      modifies this`guest, this`delivered, this`accepted, ring`head, ring`length, ring.data
      ensures Reading() && Grows(old(accepted), accepted) && |bytes| <= len && |bytes| <= CAPACITY
      ensures |bytes| < len ==> ring.length == 0
      ensures delivered == old(delivered) + bytes
      ensures guest == Splice(old(guest), addr, bytes)
    {
      hide Splits, Grows, TableInGuest;
      var _ := HostEnqueue(arrival);
      bytes := ReadInto(addr, len);
    }

    /** One buffer of the chain `all`, behind the filled ones; `taken` and `heard` are from before the chain. */
    method TakeBuffer(d: Desc, arrival: seq<Byte>, ghost start: seq<Byte>, ghost all: seq<Buffer>,
                      ghost filled: seq<Buffer>, ghost rest: seq<Buffer>, ghost payload: seq<Byte>,
                      ghost taken: seq<Byte>, ghost heard: seq<Byte>) returns (bytes: seq<Byte>)
      requires Reading() && Splits(all, filled + [Buffer(d.addr, d.len)], rest)
      requires AllInGuest(all, |start|) && AllInGuest(filled, |start|) && |payload| == TotalLength(filled)
      requires guest == Scatter(start, filled, payload)
      requires Splits(delivered, taken, payload) && Grows(heard, accepted)
      modifies this`guest, this`delivered, this`accepted, ring`head, ring`length, ring.data
      ensures Reading() && |bytes| <= d.len && |bytes| <= CAPACITY
      ensures |bytes| < d.len ==> ring.length == 0
      ensures Splits(delivered, taken, payload + bytes) && Grows(heard, accepted)
      ensures AllInGuest(filled + [Buffer(d.addr, d.len)], |start|)
      ensures guest == Scatter(start, filled + [Buffer(d.addr, d.len)], payload + bytes)
      ensures guest == Scatter(start, all, payload + bytes)
      ensures TotalLength(filled + [Buffer(d.addr, d.len)]) == |payload| + d.len
      ensures TotalLength(all) == |payload| + d.len + TotalLength(rest)
    {
      ghost var b := Buffer(d.addr, d.len);
      assert all == (filled + [b]) + rest;
      hide InputBuffers, Scatter, TotalLength, AllInGuest, Splits, Grows, TableInGuest;
      FillNext(start, all, filled, b, rest, payload, []);
      TotalNext(filled, b, rest);
      ghost var accepted0, delivered0 := accepted, delivered;
      bytes := ReadBuffer(d.addr, d.len, arrival);
      FillNext(start, all, filled, b, rest, payload, bytes);
      SplitGrows(taken, payload, bytes, delivered0);
      GrowsOn(heard, accepted0, accepted);
    }

    /**
     `orlix_virtio_mmio_process_console_input_desc`; `arrivals[k]` is typed before the `k`-th read.
     The payload fills the buffers of the chain in order. A short payload means an empty ring, and
     the head is left unconsumed only when nothing was taken for it. The 32-bit count never wraps.
     */
    method ProcessHead(head: nat, arrivals: seq<seq<Byte>>) returns (done: bool, written: nat, payload: seq<Byte>)
      requires Reading()
      modifies this`guest, this`delivered, this`accepted, ring`head, ring`length, ring.data
      ensures Reading() && Grows(old(accepted), accepted)
      ensures Splits(delivered, old(delivered), payload) && written == |payload| <= MOST < U32
      ensures AllInGuest(Chain(desc, head), |old(guest)|)
      ensures |payload| <= TotalLength(Chain(desc, head))
      ensures guest == Scatter(old(guest), Chain(desc, head), payload)
      ensures |payload| < TotalLength(Chain(desc, head)) ==> ring.length == 0 && done == (payload != [])
      ensures |payload| == TotalLength(Chain(desc, head)) ==> done
    {
      hide InputBuffers, Scatter, TotalLength, Deliver, Bytes, AllInGuest;
      var index: nat, guard: nat := head, 0;
      written, payload := 0, [];
      ghost var all, filled := Chain(desc, head), [];
      ghost var start := guest;
      ChainInGuest(desc, head, QUEUE_SIZE, |guest|);
      EmptyScatter(guest);
      SplitNothing(delivered);
      assert Grows(accepted, accepted);
      hide Splits, Grows;
      SplitAll(all);
      while guard < QUEUE_SIZE
        invariant Reading() && guard <= QUEUE_SIZE && Grows(old(accepted), accepted)
        invariant Splits(delivered, old(delivered), payload) && written == |payload| <= guard * CAPACITY
        invariant Splits(all, filled, InputBuffers(desc, index, QUEUE_SIZE - guard))
        invariant AllInGuest(filled, |start|) && |payload| == TotalLength(filled)
        invariant guest == Scatter(start, filled, payload)
      {
        NextBuffer(desc, index, QUEUE_SIZE - guard);
        if index >= QUEUE_SIZE || !desc[index].write || !Addressable(desc[index].addr, desc[index].len) {
          break;
        }
        var d := desc[index];
        ghost var b := Buffer(d.addr, d.len);
        ghost var rest := if d.hasNext then InputBuffers(desc, d.next, QUEUE_SIZE - guard - 1) else [];
        SplitMoves(filled, [b], rest, all);
        var bytes := TakeBuffer(d, ItemOr(arrivals, guard, []), start, all, filled, rest, payload, old(delivered),
                                old(accepted));
        payload := payload + bytes;
        written := (written + |bytes|) % U32;
        filled := filled + [b];
        if |bytes| < d.len {
          return written > 0, written, payload;
        }
        if !d.hasNext {
          NothingMoved(all, filled, rest);
          return true, written, payload;
        }
        index := d.next;
        guard := guard + 1;
      }
      NextBuffer(desc, index, QUEUE_SIZE - guard);
      NothingMoved(all, filled, []);
      done := true;
    }

    /** `push_used` and `last_avail++` for a head that was handled. */
    method Publish(head: nat, written: nat, ghost buffers: seq<Buffer>, ghost payload: seq<Byte>)
      requires Reading() && queue.Valid() && queue.published == UsedEntries(log)
      requires written == |payload| && Splits(delivered, Bytes(log), payload)
      modifies this`log, queue, queue.usedRing
      ensures Valid() && log == old(log) + [Delivery(head, buffers, payload)]
      ensures queue.taken == old(queue.taken) + 1 && queue.lastAvail == (old(queue.lastAvail) + 1) % WRAP
    {
      hide TableInGuest, InputBuffers;
      queue.PushUsed(head, written);
      queue.Advance();
      BytesNext(log, Delivery(head, buffers, payload));
      UsedNext(log, Delivery(head, buffers, payload));
      log := log + [Delivery(head, buffers, payload)];
    }

    /** The head in the avail slot of `last_avail`. */
    method HeadAt(avail: seq<nat>) returns (head: nat)
      requires queue.Valid() && |avail| == queue.num
      ensures |avail| > 0 && head == avail[queue.taken % |avail|]
    {
      LastAvailSlot(queue);
      head := avail[queue.lastAvail % queue.num];
    }

    /** One head, before its used entry is published. */
    method Handle(head: nat, arrivals: seq<seq<Byte>>) returns (done: bool, ghost d: Delivery, written: nat)
      requires Reading()
      modifies this`guest, this`delivered, this`accepted, ring`head, ring`length, ring.data
      ensures Reading() && Filled(desc, old(State()), d, State()) && d.head == head && written == |d.payload|
      ensures Splits(delivered, old(delivered), d.payload)
      ensures !done ==> ring.length == 0 && d.payload == []
    {
      assert |desc| == QUEUE_SIZE;
      hide TotalLength, InputBuffers, Scatter, Splits, Grows, TableInGuest, AllInGuest;
      var payload;
      done, written, payload := ProcessHead(head, arrivals);
      d := Delivery(head, Chain(desc, head), payload);
    }

    /** One iteration of the drain loop; `done` is false when the loop is left. */
    method DrainOne(availIdx: nat, avail: seq<nat>, arrivals: seq<seq<Byte>>) returns (done: bool, ghost d: Delivery)
      requires Valid() && availIdx < WRAP && queue.lastAvail < WRAP && queue.lastAvail != availIdx
      requires |avail| == queue.num > 0
      modifies this`guest, this`delivered, this`accepted, this`log
      modifies ring`head, ring`length, ring.data, queue, queue.usedRing
      ensures Valid() && Took(desc, avail, old(queue.taken), old(State()), d, State(), done)
      ensures queue.taken == if done then old(queue.taken) + 1 else old(queue.taken)
      ensures queue.lastAvail < WRAP
      ensures Pending(availIdx, queue.lastAvail) == Pending(availIdx, old(queue.lastAvail)) - if done then 1 else 0
      ensures !done ==> ring.length == 0 && d.payload == []
    {
      hide TotalLength, InputBuffers, Scatter, Splits, Grows, Bytes, UsedEntries, Pending, TableInGuest, AllInGuest;
      hide Took, Filled, Slot;
      NextHead(queue, availIdx);
      var head := HeadAt(avail);
      ghost var before := State();
      var written;
      done, d, written := Handle(head, arrivals);
      ghost var filled := State();
      if done {
        Publish(head, written, d.buffers, d.payload);
      } else {
        NothingMoved(delivered, old(delivered), d.payload);
      }
      TookFilled(desc, avail, old(queue.taken), before, d, filled, State(), done);
    }

    /** One iteration, seen from the start of the drain. */
    method DrainNext(availIdx: nat, avail: seq<nat>, arrivals: seq<seq<Byte>>,
                     ghost base: nat, ghost start: Snapshot, ghost ds: seq<Delivery>)
      returns (done: bool, ghost d: Delivery)
      requires Valid() && availIdx < WRAP && queue.lastAvail < WRAP && queue.lastAvail != availIdx
      requires |avail| == queue.num > 0
      requires queue.taken == base + |ds| && Drained(desc, avail, base, start, State(), ds, ds)
      modifies this`guest, this`delivered, this`accepted, this`log
      modifies ring`head, ring`length, ring.data, queue, queue.usedRing
      ensures Valid() && queue.lastAvail < WRAP && queue.taken == base + |ds| + if done then 1 else 0
      ensures Pending(availIdx, queue.lastAvail) == Pending(availIdx, old(queue.lastAvail)) - if done then 1 else 0
      ensures Drained(desc, avail, base, start, State(), if done then ds + [d] else ds, ds + [d])
      ensures !done ==> ring.length == 0 && d.payload == []
    {
      hide Valid, Pending, Drained, Took;
      ghost var before := State();
      done, d := DrainOne(availIdx, avail, arrivals);
      DrainedNext(desc, avail, base, start, before, ds, d, State(), done);
    }

    /**
     `orlix_virtio_mmio_process_console_input_queue`: the pending heads are handled in order. The
     drain leaves heads unconsumed only with an empty ring, and nothing was taken for the first of them.
     */
    method DrainInput(availIdx: nat, avail: seq<nat>, arrivals: seq<seq<seq<Byte>>>)
      returns (done: bool, ghost published: seq<Delivery>, ghost all: seq<Delivery>)
      requires Valid() && availIdx < WRAP && |avail| == queue.num
      modifies this`guest, this`delivered, this`accepted, this`log
      modifies ring`head, ring`length, ring.data, queue, queue.usedRing
      ensures Valid() && queue.taken == old(queue.taken) + |published|
      ensures Drained(desc, avail, old(queue.taken), old(State()), State(), published, all)
      ensures done ==> all == published && queue.lastAvail == availIdx
      ensures done ==> |published| == Pending(availIdx, old(queue.lastAvail))
      ensures !done ==> |all| == |published| + 1 && all[|published|].payload == [] && ring.length == 0
    {
      assert |desc| == QUEUE_SIZE && queue.num > 0 && queue.lastAvail < WRAP && TableInGuest(desc, |guest|);
      hide Valid, Pending, Drained;
      done, published, all := true, [], [];
      NothingDrained(desc, avail, queue.taken, State());
      var n := 0;
      while done && queue.lastAvail != availIdx
        invariant n == |published|
        invariant Valid() && queue.lastAvail < WRAP && queue.taken == old(queue.taken) + |published|
        invariant |published| + Pending(availIdx, queue.lastAvail) == Pending(availIdx, old(queue.lastAvail))
        invariant Drained(desc, avail, old(queue.taken), old(State()), State(), published, all)
        invariant if done then all == published
                  else |all| == |published| + 1 && all[|published|].payload == [] && ring.length == 0
        decreases done, Pending(availIdx, queue.lastAvail)
      {
        ghost var d;
        done, d := DrainNext(availIdx, avail, ItemOr(arrivals, n, []), old(queue.taken), old(State()), all);
        all := all + [d];
        if done {
          published := all;
          n := n + 1;
        }
      }
    }
  }
}
