/** Guest memory as the virtio devices see it: buffers named by descriptors, filled and read in order. */
module GuestBuffers {
  import opened HostTypes
  import opened Slices

  /** A `vring_desc`; flag bits the devices do not test are left out. */
  datatype Desc = Desc(addr: nat, len: nat, next: nat, hasNext: bool, write: bool, indirect: bool)

  datatype Buffer = Buffer(addr: nat, len: nat)

  /** `orlix_virtio_mmio_guest_ptr` returns a pointer. */
  predicate Addressable(addr: nat, len: nat) {
    addr != 0 && addr + len < ADDRESS_SPACE
  }

  predicate InGuest(b: Buffer, guestSize: nat) {
    b.addr + b.len <= guestSize
  }

  predicate AllInGuest(bs: seq<Buffer>, guestSize: nat) {
    forall i :: 0 <= i < |bs| ==> InGuest(bs[i], guestSize)
  }

  predicate Separate(a: Buffer, b: Buffer) {
    a.addr + a.len <= b.addr || b.addr + b.len <= a.addr
  }

  ghost predicate AllSeparate(bs: seq<Buffer>) {
    forall i, j :: 0 <= i < j < |bs| ==> Separate(bs[i], bs[j])
  }

  function TotalLength(bs: seq<Buffer>): nat {
    if bs == [] then 0 else bs[0].len + TotalLength(bs[1..])
  }

  /** The bytes of the buffers, one buffer after the other. */
  function Gather(guest: seq<Byte>, bs: seq<Buffer>): (r: seq<Byte>)
    requires AllInGuest(bs, |guest|)
    ensures |r| == TotalLength(bs)
  {
    if bs == [] then [] else guest[bs[0].addr..bs[0].addr + bs[0].len] + Gather(guest, bs[1..])
  }

  /** Fills the buffers in order until the payload is used up. */
  function Scatter(guest: seq<Byte>, bs: seq<Buffer>, payload: seq<Byte>): (r: seq<Byte>)
    requires AllInGuest(bs, |guest|)
    ensures |r| == |guest|
    decreases |bs|
  {
    if bs == [] then guest
    else
      var n := if |payload| < bs[0].len then |payload| else bs[0].len;
      Scatter(Splice(guest, bs[0].addr, payload[..n]), bs[1..], payload[n..])
  }

  predicate Touches(bs: seq<Buffer>, a: nat) {
    exists i :: 0 <= i < |bs| && bs[i].addr <= a < bs[i].addr + bs[i].len
  }

  /** Bytes outside the buffers keep their value. */
  lemma {:induction false} ScatterElsewhere(guest: seq<Byte>, bs: seq<Buffer>, payload: seq<Byte>, a: nat)
    requires AllInGuest(bs, |guest|) && a < |guest| && !Touches(bs, a)
    ensures Scatter(guest, bs, payload)[a] == guest[a]
    decreases |bs|
  {
    if bs != [] {
      var n := if |payload| < bs[0].len then |payload| else bs[0].len;
      assert !(bs[0].addr <= a < bs[0].addr + bs[0].len);
      assert !Touches(bs[1..], a) by {
        assert forall i | 0 <= i < |bs[1..]| :: bs[1..][i] == bs[i + 1];
      }
      ScatterElsewhere(Splice(guest, bs[0].addr, payload[..n]), bs[1..], payload[n..], a);
    }
  }

  lemma {:induction false} GatherUnchanged(before: seq<Byte>, after: seq<Byte>, bs: seq<Buffer>)
    requires |before| == |after| && AllInGuest(bs, |before|)
    requires forall a :: 0 <= a < |before| && Touches(bs, a) ==> after[a] == before[a]
    ensures Gather(after, bs) == Gather(before, bs)
  {
    if bs != [] {
      var b, rest := bs[0], bs[1..];
      forall a | 0 <= a < |before| && Touches(rest, a)
        ensures after[a] == before[a]
      {
        var i :| 0 <= i < |rest| && rest[i].addr <= a < rest[i].addr + rest[i].len;
        assert bs[i + 1] == rest[i];
      }
      GatherUnchanged(before, after, rest);
      forall a | b.addr <= a < b.addr + b.len
        ensures after[a] == before[a]
      {
        assert bs[0] == b;
      }
      assert after[b.addr..b.addr + b.len] == before[b.addr..b.addr + b.len];
    }
  }

  /** Bytes of a payload that go into the first buffer. */
  function FirstPart(bs: seq<Buffer>, payload: seq<Byte>): (n: nat)
    requires bs != []
    ensures n <= |payload| && n <= bs[0].len && (n == |payload| || n == bs[0].len)
  {
    if |payload| < bs[0].len then |payload| else bs[0].len
  }

  lemma RestSeparate(bs: seq<Buffer>)
    requires bs != [] && AllSeparate(bs)
    ensures AllSeparate(bs[1..])
  {
    assert forall i | 0 <= i < |bs[1..]| :: bs[1..][i] == bs[i + 1];
  }

  /** The first buffer takes its part of the payload and the others the rest. */
  lemma ScatterStep(guest: seq<Byte>, bs: seq<Buffer>, payload: seq<Byte>)
    requires bs != [] && AllInGuest(bs, |guest|)
    ensures AllInGuest(bs[1..], |guest|) && bs[0].addr + bs[0].len <= |guest|
    ensures var n := FirstPart(bs, payload);
            Scatter(guest, bs, payload) == Scatter(Splice(guest, bs[0].addr, payload[..n]), bs[1..], payload[n..])
  {
    hide Splice;
  }

  lemma GatherStep(guest: seq<Byte>, bs: seq<Buffer>)
    requires bs != [] && AllInGuest(bs, |guest|)
    ensures AllInGuest(bs[1..], |guest|) && bs[0].addr + bs[0].len <= |guest|
    ensures TotalLength(bs) == bs[0].len + TotalLength(bs[1..])
    ensures Gather(guest, bs) == guest[bs[0].addr..bs[0].addr + bs[0].len] + Gather(guest, bs[1..])
  {
  }

  /** Filling the other buffers leaves the part of the payload in the first. */
  lemma FirstShown(guest: seq<Byte>, bs: seq<Buffer>, bytes: seq<Byte>, payload: seq<Byte>)
    requires bs != [] && AllInGuest(bs, |guest|) && AllSeparate(bs) && |bytes| <= bs[0].len
    requires AllInGuest(bs[1..], |guest|)
    ensures var last := Scatter(Splice(guest, bs[0].addr, bytes), bs[1..], payload);
            last[bs[0].addr..bs[0].addr + bs[0].len][..|bytes|] == bytes
  {
    hide Scatter, AllSeparate;
    FirstKept(Splice(guest, bs[0].addr, bytes), bs, payload);
    SpliceStarts(guest, bs[0].addr, bs[0].len, bytes);
    hide Splice;
  }

  /** Reading the buffers back returns what was put into them. */
  lemma {:induction false} GatherScatter(guest: seq<Byte>, bs: seq<Buffer>, payload: seq<Byte>)
    requires AllInGuest(bs, |guest|) && AllSeparate(bs) && |payload| <= TotalLength(bs)
    ensures Gather(Scatter(guest, bs, payload), bs)[..|payload|] == payload
    decreases |bs|
  {
    if bs == [] {
    } else {
      hide Splice, AllSeparate, Scatter, Gather, TotalLength, FirstPart;
      var b, rest, n := bs[0], bs[1..], FirstPart(bs, payload);
      RestSeparate(bs);
      ScatterStep(guest, bs, payload);
      var first := Splice(guest, b.addr, payload[..n]);
      var last := Scatter(first, rest, payload[n..]);
      GatherStep(last, bs);
      FirstShown(guest, bs, payload[..n], payload[n..]);
      GatherScatter(first, rest, payload[n..]);
      JoinPrefix(last[b.addr..b.addr + b.len], Gather(last, rest), payload, n);
    }
  }

  lemma SpliceStarts(s: seq<Byte>, at: nat, length: nat, bytes: seq<Byte>)
    requires |bytes| <= length && at + length <= |s|
    ensures Splice(s, at, bytes)[at..at + length][..|bytes|] == bytes
  {
    var shown := Splice(s, at, bytes)[at..at + length][..|bytes|];
    forall i | 0 <= i < |bytes|
      ensures shown[i] == bytes[i]
    {
      assert shown[i] == Splice(s, at, bytes)[at + i];
    }
  }

  lemma FirstKept(guest: seq<Byte>, bs: seq<Buffer>, payload: seq<Byte>)
    requires bs != [] && AllInGuest(bs, |guest|) && AllSeparate(bs) && AllInGuest(bs[1..], |guest|)
    ensures var b := bs[0];
            Scatter(guest, bs[1..], payload)[b.addr..b.addr + b.len] == guest[b.addr..b.addr + b.len]
  {
    var b, rest := bs[0], bs[1..];
    forall a | b.addr <= a < b.addr + b.len
      ensures Scatter(guest, rest, payload)[a] == guest[a]
    {
      forall i | 0 <= i < |rest|
        ensures !(rest[i].addr <= a < rest[i].addr + rest[i].len)
      {
        assert Separate(bs[0], bs[i + 1]);
      }
      ScatterElsewhere(guest, rest, payload, a);
    }
  }

  /** The first buffer is full unless the payload ended in it. */
  lemma JoinPrefix(head: seq<Byte>, tail: seq<Byte>, payload: seq<Byte>, n: nat)
    requires n <= |payload| && n <= |head| && head[..n] == payload[..n]
    requires n == |head| || n == |payload|
    requires |payload| - n <= |tail| && tail[..|payload| - n] == payload[n..]
    ensures (head + tail)[..|payload|] == payload
  {
    if n == |payload| {
      assert (head + tail)[..|payload|] == head[..n];
    } else {
      assert (head + tail)[..|payload|] == head + tail[..|payload| - n];
    }
  }

  lemma {:induction false} TotalAppend(a: seq<Buffer>, b: seq<Buffer>)
    ensures TotalLength(a + b) == TotalLength(a) + TotalLength(b)
    decreases |a|
  {
    if a == [] {
      assert a + b == b;
    } else {
      assert (a + b)[1..] == a[1..] + b;
      TotalAppend(a[1..], b);
    }
  }

  /** Full buffers take their share; what follows goes to the next buffer. */
  lemma {:induction false} ScatterAppend(guest: seq<Byte>, bs: seq<Buffer>, b: Buffer, payload: seq<Byte>,
                                         more: seq<Byte>)
    requires AllInGuest(bs + [b], |guest|) && |payload| == TotalLength(bs) && |more| <= b.len
    ensures AllInGuest(bs, |guest|) && InGuest(b, |guest|)
    ensures Scatter(guest, bs + [b], payload + more) == Splice(Scatter(guest, bs, payload), b.addr, more)
    decreases |bs|
  {
    var all := bs + [b];
    assert all[|bs|] == b && forall i | 0 <= i < |bs| :: all[i] == bs[i];
    if bs == [] {
      assert payload + more == more && all[1..] == [];
      assert more[..|more|] == more;
    } else {
      var n := bs[0].len;
      var first := Splice(guest, bs[0].addr, payload[..n]);
      assert all[1..] == bs[1..] + [b];
      assert (payload + more)[..n] == payload[..n] && (payload + more)[n..] == payload[n..] + more;
      ScatterAppend(first, bs[1..], b, payload[n..], more);
    }
  }

  /** Buffers behind the end of the payload are not touched. */
  lemma {:induction false} ScatterShort(guest: seq<Byte>, bs: seq<Buffer>, more: seq<Buffer>, payload: seq<Byte>)
    requires AllInGuest(bs, |guest|) && AllInGuest(more, |guest|) && |payload| <= TotalLength(bs)
    ensures AllInGuest(bs + more, |guest|)
    ensures Scatter(guest, bs + more, payload) == Scatter(guest, bs, payload)
    decreases |bs| + |more|
  {
    if bs != [] {
      var n := if |payload| < bs[0].len then |payload| else bs[0].len;
      assert (bs + more)[1..] == bs[1..] + more;
      ScatterShort(Splice(guest, bs[0].addr, payload[..n]), bs[1..], more, payload[n..]);
    } else if more != [] {
      assert bs + more == more && payload[..0] == [] && payload[0..] == [];
      assert Splice(guest, more[0].addr, payload[..0]) == guest;
      ScatterShort(guest, [], more[1..], []);
      assert [] + more[1..] == more[1..];
    }
  }

  lemma PartsInGuest(a: seq<Buffer>, b: seq<Buffer>, guestSize: nat)
    requires AllInGuest(a + b, guestSize)
    ensures AllInGuest(a, guestSize) && AllInGuest(b, guestSize)
    ensures |b| == 1 ==> InGuest(b[0], guestSize)
  {
    assert forall i | 0 <= i < |a| :: (a + b)[i] == a[i];
    assert forall i | 0 <= i < |b| :: (a + b)[|a| + i] == b[i];
  }

  lemma TotalNext(filled: seq<Buffer>, b: Buffer, rest: seq<Buffer>)
    ensures TotalLength(filled + [b]) == TotalLength(filled) + b.len
    ensures TotalLength((filled + [b]) + rest) == TotalLength(filled + [b]) + TotalLength(rest)
  {
    TotalAppend(filled, [b]);
    assert [b][1..] == [];
    TotalAppend(filled + [b], rest);
  }

  /** The next buffer `b` of `all` takes `bytes` once the buffers before it are full. */
  lemma FillNext(guest: seq<Byte>, all: seq<Buffer>, filled: seq<Buffer>, b: Buffer, rest: seq<Buffer>,
                 payload: seq<Byte>, bytes: seq<Byte>)
    requires AllInGuest(all, |guest|) && all == (filled + [b]) + rest
    requires |payload| == TotalLength(filled) && |bytes| <= b.len
    ensures AllInGuest(filled, |guest|) && AllInGuest(filled + [b], |guest|) && InGuest(b, |guest|)
    ensures Scatter(guest, filled + [b], payload + bytes) == Splice(Scatter(guest, filled, payload), b.addr, bytes)
    ensures Scatter(guest, all, payload + bytes) == Scatter(guest, filled + [b], payload + bytes)
  {
    PartsInGuest(filled + [b], rest, |guest|);
    PartsInGuest(filled, [b], |guest|);
    TotalNext(filled, b, rest);
    ScatterAppend(guest, filled, b, payload, bytes);
    ScatterShort(guest, filled + [b], rest, payload + bytes);
  }
}
