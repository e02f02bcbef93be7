/**
 Split virtqueue bookkeeping of the device (drivers/orlix/virtio/mmio.c; section 2.7 of VIRTIO 1.2):
 16-bit free-running counters, taken modulo the queue size, over the avail and used rings.
 */
module Virtqueue {
  import opened HostTypes
  import opened Arithmetic

  const WRAP: nat := 0x1_0000

  datatype UsedElem = UsedElem(id: nat, len: nat)

  /** Ring slot of the entry with free-running counter `k`. */
  function Slot(k: nat, num: nat): (r: nat)
    requires num > 0
    ensures r < num
  {
    k % WRAP % num
  }

  // ---------------------------------------------------------------- counter arithmetic

  /** The 16-bit counter modulo the size is the unbounded counter modulo the size. */
  lemma SlotIsMod(k: nat, num: nat)
    requires num > 0 && WRAP % num == 0
    ensures Slot(k, num) == k % num
  {
    var m := WRAP / num;
    var c := k % WRAP;
    assert k == WRAP * (k / WRAP) + c && c == num * (c / num) + c % num;
    assert WRAP * (k / WRAP) == num * (m * (k / WRAP)) by {
      assert WRAP == num * m;
    }
    assert k == num * (m * (k / WRAP) + c / num) + c % num;
    ModUnique(num, m * (k / WRAP) + c / num, c % num);
  }

  /** Counters less than a queue size apart use different slots. */
  lemma SlotsDiffer(k: nat, j: nat, num: nat)
    requires num > 0 && WRAP % num == 0 && k < j < k + num
    ensures Slot(k, num) != Slot(j, num)
  {
    SlotIsMod(k, num);
    SlotIsMod(j, num);
    ModDiffer(num, k, j);
  }

  /** The slot of the last counter before the wrap is used again soon after it. */
  lemma SlotsMeet(num: nat) returns (k: nat, j: nat)
    requires num > 0 && WRAP % num != 0
    ensures k < j < k + num && Slot(k, num) == Slot(j, num)
  {
    var q, r := WRAP / num, WRAP % num;
    if num > WRAP {
      k, j := 0, WRAP;
    } else {
      k, j := WRAP - 1, WRAP + (r - 1);
      assert k == num * q + (r - 1);
      ModUnique(num, q, r - 1);
      ModUnique(num, 0, r - 1);
      assert j % WRAP == r - 1;
    }
  }

  /**
   The device accepts any queue size up to 128. A queue's worth of consecutive entries gets distinct
   slots at every counter value exactly when the size divides 2^16, which a power of two does.
   */
  lemma SlotsDistinctExactly(num: nat)
    requires 0 < num
    ensures (forall k: nat, j: nat :: k < j < k + num ==> Slot(k, num) != Slot(j, num)) <==> WRAP % num == 0
  {
    hide Slot;
    if WRAP % num == 0 {
      forall k: nat, j: nat | k < j < k + num
        ensures Slot(k, num) != Slot(j, num)
      {
        SlotsDiffer(k, j, num);
      }
    } else {
      var k, j := SlotsMeet(num);
    }
  }

  // ---------------------------------------------------------------- the queue

  class Queue {
    const num: nat
    var lastAvail: nat
    var usedIdx: nat
    const usedRing: array<UsedElem>
    /** Free-running counterparts: heads consumed, and entries published in order. */
    ghost var taken: nat
    ghost var published: seq<UsedElem>

    ghost predicate Valid()
      reads this, usedRing
    {
      && 0 < num <= 128 && WRAP % num == 0 && usedRing.Length == num
      && lastAvail == taken % WRAP && usedIdx == |published| % WRAP
      && forall k :: 0 <= k < |published| && |published| <= k + num ==> usedRing[Slot(k, num)] == published[k]
    }

    /** Entries a driver that has read `read` of them, and keeps at most `num` outstanding, still finds in place. */
    lemma UnreadIntact(read: nat, k: nat)
      requires Valid() && read <= k < |published| && |published| - read <= num
      ensures usedRing[Slot(k, num)] == published[k]
    {
    }

    constructor (num: nat)
      requires 0 < num <= 128 && WRAP % num == 0
      ensures Valid() && this.num == num && taken == 0 && published == [] && lastAvail == 0 && fresh(usedRing)
    {
      this.num := num;
      usedRing := new UsedElem[num](_ => UsedElem(0, 0));
      lastAvail, usedIdx, taken, published := 0, 0, 0, [];
    }

    /** `orlix_virtio_mmio_push_used`. */
    method PushUsed(id: nat, len: nat)
      requires Valid()
      modifies this`usedIdx, this`published, usedRing
      ensures Valid() && published == old(published) + [UsedElem(id, len)]
    {
      var at := usedIdx % num;
      usedRing[at] := UsedElem(id, len);
      usedIdx := (usedIdx + 1) % WRAP;
      ghost var n := |published|;
      forall k | 0 <= k < n && n + 1 <= k + num
        ensures Slot(k, num) != Slot(n, num)
      {
        SlotsDiffer(k, n, num);
      }
      published := published + [UsedElem(id, len)];
    }

    /** The `last_avail++` that follows. */
    method Advance()
      requires Valid()
      modifies this`lastAvail, this`taken
      ensures Valid() && taken == old(taken) + 1 && lastAvail == (old(lastAvail) + 1) % WRAP
    {
      lastAvail := (lastAvail + 1) % WRAP;
      taken := taken + 1;
    }

    /**
     The drain loop of a device whose handling of the `j`-th pending head reports `written[j]` bytes: it
     takes exactly the pending heads, in order, and publishes one entry for each.
     */
    method Drain(availIdx: nat, ring: seq<nat>, written: seq<nat>)
      requires Valid() && availIdx < WRAP && |ring| == num && |written| == Pending(availIdx, lastAvail)
      modifies this, usedRing
      ensures Valid() && lastAvail == availIdx
      ensures taken == old(taken) + Pending(availIdx, old(lastAvail))
      ensures published == old(published) + Entries(ring, old(taken), written)
    {
      hide Pending, Slot, Entries;
      var j := 0;
      EntriesNone(ring, taken, written);
      while lastAvail != availIdx
        invariant Valid() && taken == old(taken) + j
        invariant j + Pending(availIdx, lastAvail) == Pending(availIdx, old(lastAvail))
        invariant published == old(published) + Entries(ring, old(taken), written[..j])
        decreases Pending(availIdx, lastAvail)
      {
        SlotIsMod(taken, num);
        TakeNext(availIdx, lastAvail, taken, num);
        ghost var base: nat := old(taken);
        EntriesNext(ring, base, written, j);
        PushUsed(ring[lastAvail % num], written[j]);
        Advance();
        j := j + 1;
      }
      assert written[..j] == written;
    }
  }

  /** Heads the driver has made available and the device has not taken. */
  function Pending(availIdx: nat, lastAvail: nat): (r: nat)
    requires availIdx < WRAP && lastAvail < WRAP
    ensures r < WRAP && (lastAvail + r) % WRAP == availIdx
    ensures r == 0 <==> lastAvail == availIdx
  {
    if lastAvail <= availIdx then availIdx - lastAvail else availIdx + WRAP - lastAvail
  }

  lemma TakeNext(availIdx: nat, lastAvail: nat, taken: nat, num: nat)
    requires availIdx < WRAP && lastAvail == taken % WRAP && lastAvail != availIdx && num > 0
    ensures Pending(availIdx, (lastAvail + 1) % WRAP) == Pending(availIdx, lastAvail) - 1
    ensures lastAvail % num == Slot(taken, num)
  {
  }

  lemma EntriesNone(ring: seq<nat>, base: nat, written: seq<nat>)
    requires |ring| > 0
    ensures Entries(ring, base, written[..0]) == []
  {
  }

  lemma EntriesNext(ring: seq<nat>, base: nat, written: seq<nat>, j: nat)
    requires |ring| > 0 && j < |written|
    ensures Entries(ring, base, written[..j + 1])
         == Entries(ring, base, written[..j]) + [UsedElem(ring[(base + j) % |ring|], written[j])]
  {
  }

  /** One used entry for each of the heads from free-running counter `base` on, in order. */
  ghost function Entries(ring: seq<nat>, base: nat, written: seq<nat>): (r: seq<UsedElem>)
    requires |ring| > 0
    ensures |r| == |written|
  {
    seq(|written|, j requires 0 <= j < |written| => UsedElem(ring[(base + j) % |ring|], written[j]))
  }
}
