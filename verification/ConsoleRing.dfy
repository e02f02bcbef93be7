/** The console input ring of the host adapter (terminal/console.c). */
module ConsoleRing {
  import opened HostTypes

  const CAPACITY: nat := 65536

  function Min(a: nat, b: nat): nat {
    if a < b then a else b
  }

  /** `x % CAPACITY` for the sums that occur. */
  function Wrap(x: nat): (r: nat)
    requires x < 2 * CAPACITY
    ensures r == x % CAPACITY
  {
    if x < CAPACITY then x else x - CAPACITY
  }

  /** Bytes of a ring array, oldest first. */
  ghost function RingContents(data: seq<Byte>, head: nat, length: nat): (r: seq<Byte>)
    requires |data| == CAPACITY && head < CAPACITY && length <= CAPACITY
    ensures |r| == length
    ensures forall i :: 0 <= i < length ==> r[i] == data[Wrap(head + i)]
  {
    seq(length, i requires 0 <= i < length => data[Wrap(head + i)])
  }

  /** A chunk copied behind the tail of the ring is appended to its contents. */
  lemma AppendChunk(before: seq<Byte>, after: seq<Byte>, head: nat, length: nat, chunk: seq<Byte>)
    requires |before| == |after| == CAPACITY && head < CAPACITY && length + |chunk| <= CAPACITY
    requires Wrap(head + length) + |chunk| <= CAPACITY
    requires forall i :: 0 <= i < CAPACITY ==>
               after[i] == if Wrap(head + length) <= i < Wrap(head + length) + |chunk|
                           then chunk[i - Wrap(head + length)] else before[i]
    ensures RingContents(after, head, length + |chunk|) == RingContents(before, head, length) + chunk
  {
    var tail := Wrap(head + length);
    var left, right := RingContents(after, head, length + |chunk|), RingContents(before, head, length) + chunk;
    forall i | 0 <= i < |left|
      ensures left[i] == right[i]
    {
      var at := Wrap(head + i);
      assert left[i] == after[at];
      if i < length {
        assert !(tail <= at < tail + |chunk|);
      } else {
        assert at == tail + (i - length);
      }
    }
  }

  /** A contiguous chunk taken at the head is the front of the contents. */
  lemma TakeChunk(data: seq<Byte>, head: nat, length: nat, chunk: nat)
    requires |data| == CAPACITY && head < CAPACITY && chunk <= length <= CAPACITY && head + chunk <= CAPACITY
    ensures data[head..head + chunk] + RingContents(data, Wrap(head + chunk), length - chunk)
          == RingContents(data, head, length)
  {
    var rest, all := RingContents(data, Wrap(head + chunk), length - chunk), RingContents(data, head, length);
    var left := data[head..head + chunk] + rest;
    forall i | 0 <= i < |left|
      ensures left[i] == all[i]
    {
      if i >= chunk {
        assert left[i] == rest[i - chunk] == data[Wrap(Wrap(head + chunk) + (i - chunk))];
      }
    }
  }

  lemma Regroup(a: seq<Byte>, b: seq<Byte>, c: seq<Byte>, all: seq<Byte>)
    requires b + c == all
    ensures (a + b) + c == a + all
  {
  }

  class InputRing {
    const data: array<Byte>
    var head: nat
    var length: nat

    ghost predicate Valid()
      reads this
    {
      data.Length == CAPACITY && head < CAPACITY && length <= CAPACITY
    }

    ghost function Contents(): (r: seq<Byte>)
      requires Valid()
      reads this, data
      ensures |r| == length
    {
      RingContents(data[..], head, length)
    }

    constructor ()
      ensures Valid() && Contents() == [] && fresh(data)
    {
      data := new Byte[CAPACITY](_ => 0);
      head, length := 0, 0;
    }

    /** `orlix_host_console_enqueue_input`: a bounded FIFO accepts a prefix of the bytes. */
    method EnqueueInput(bytes: seq<Byte>) returns (copied: nat)
      requires Valid()
      modifies this`length, data
      ensures Valid() && copied == Min(|bytes|, CAPACITY - old(length))
      ensures Contents() == old(Contents()) + bytes[..copied]
    {
      copied := 0;
      assert bytes[..0] == [];
      while copied < |bytes| && length < CAPACITY
        invariant Valid() && copied <= |bytes|
        invariant length == old(length) + copied
        invariant Contents() == old(Contents()) + bytes[..copied]
        decreases |bytes| - copied
      {
        var tail := (head + length) % CAPACITY;
        var chunk := Min(Min(CAPACITY - tail, CAPACITY - length), |bytes| - copied);
        CopyIn(tail, bytes[copied..copied + chunk]);
        assert bytes[..copied] + bytes[copied..copied + chunk] == bytes[..copied + chunk];
        copied := copied + chunk;
      }
    }

    /** One `memcpy` behind the tail, and the length update that follows it. */
    method CopyIn(tail: nat, chunk: seq<Byte>)
      requires Valid() && tail == (head + length) % CAPACITY
      requires length + |chunk| <= CAPACITY && tail + |chunk| <= CAPACITY
      modifies this`length, data
      ensures Valid() && length == old(length) + |chunk|
      ensures Contents() == old(Contents()) + chunk
    {
      ghost var before := data[..];
      forall i | 0 <= i < |chunk| {
        data[tail + i] := chunk[i];
      }
      forall i | 0 <= i < CAPACITY
        ensures data[i] == if tail <= i < tail + |chunk| then chunk[i - tail] else before[i]
      {
        if tail <= i < tail + |chunk| {
          assert data[tail + (i - tail)] == chunk[i - tail];
        }
      }
      AppendChunk(before, data[..], head, length, chunk);
      length := length + |chunk|;
    }

    /** `orlix_host_console_read_input`: the oldest bytes, as many as fit. */
    method ReadInput(limit: nat) returns (bytes: seq<Byte>)
      requires Valid()
      modifies this`head, this`length
      ensures Valid() && |bytes| == Min(limit, old(length))
      ensures bytes + Contents() == old(Contents())
    {
      bytes := [];
      assert bytes + Contents() == Contents();
      hide RingContents;
      while |bytes| < limit && length > 0
        invariant Valid() && |bytes| <= limit
        invariant |bytes| + length == old(length)
        invariant bytes + Contents() == old(Contents())
        decreases limit - |bytes|
      {
        var chunk := Min(Min(CAPACITY - head, length), limit - |bytes|);
        ghost var before := Contents();
        var taken := CopyOut(chunk);
        Regroup(bytes, taken, Contents(), before);
        bytes := bytes + taken;
      }
    }

    /** One `memcpy` from the head, and the head and length updates that follow it. */
    method CopyOut(chunk: nat) returns (taken: seq<Byte>)
      requires Valid() && chunk <= length && head + chunk <= CAPACITY
      modifies this`head, this`length
      ensures Valid() && |taken| == chunk && length == old(length) - chunk
      ensures taken + Contents() == old(Contents())
    {
      TakeChunk(data[..], head, length, chunk);
      taken := data[..][head..head + chunk];
      head := (head + chunk) % CAPACITY;
      length := length - chunk;
    }
  }
}
