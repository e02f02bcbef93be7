/**
 Descriptor chains of block requests (drivers/orlix/virtio/mmio.c): direct and indirect tables, and the
 guarded walk.
 */
module BlockChain {
  import opened HostTypes
  import opened GuestBuffers

  /** Size of a descriptor in guest memory. */
  const DESC_SIZE: nat := 16

  /** A table and the index in it where a request starts. */
  datatype Start = Start(desc: seq<Desc>, head: nat)

  /**
   `orlix_virtio_mmio_resolve_desc_chain`: an indirect head names a table of its own. `table` is
   what guest memory holds at that address.
   */
  function Resolve(queue: seq<Desc>, head: nat, table: seq<Desc>): (r: Option<Start>)
    ensures r.Some? ==> r.value.head < |r.value.desc|
    ensures r.Some? ==> head < |queue|
    ensures r.Some? && queue[head].indirect ==> |r.value.desc| * DESC_SIZE == queue[head].len
  {
    if head >= |queue| then None
    else if !queue[head].indirect then Some(Start(queue, head))
    else if queue[head].len == 0 || queue[head].len % DESC_SIZE != 0 then None
    else if !Addressable(queue[head].addr, queue[head].len) then None
    else if |table| * DESC_SIZE != queue[head].len then None
    else Some(Start(table, 0))
  }

  /** Descriptors a walk visits before it stops, and the one it ends at when it is not rejected. */
  datatype Walk = Walk(data: seq<nat>, status: Option<nat>)

  /** The walk from `at` with `guard` more descriptors allowed. */
  function Follow(desc: seq<Desc>, at: nat, guard: nat): (w: Walk)
    ensures |w.data| <= guard
    ensures forall i :: 0 <= i < |w.data| ==> w.data[i] < |desc|
    ensures w.status.Some? ==> w.status.value < |desc|
    decreases guard
  {
    if guard == 0 || at >= |desc| || desc[at].indirect then Walk([], None)
    else if !desc[at].hasNext then Walk([], Some(at))
    else
      var w := Follow(desc, desc[at].next, guard - 1);
      Walk([at] + w.data, w.status)
  }

  /** `p` lists the descriptors of a chain: each links to the following one, and the last one ends it. */
  ghost predicate IsChain(desc: seq<Desc>, at: nat, p: seq<nat>) {
    && p != [] && p[0] == at
    && (forall i :: 0 <= i < |p| ==> p[i] < |desc| && !desc[p[i]].indirect)
    && (forall i :: 0 <= i < |p| - 1 ==> desc[p[i]].hasNext && desc[p[i]].next == p[i + 1])
    && !desc[p[|p| - 1]].hasNext
  }

  /** A chain that ends does not come back to a descriptor. */
  lemma {:induction false} ChainDistinct(desc: seq<Desc>, at: nat, p: seq<nat>, i: nat, j: nat)
    requires IsChain(desc, at, p) && i < j < |p|
    ensures p[i] != p[j]
    decreases |p| - j
  {
    if p[i] == p[j] && j + 1 < |p| {
      ChainDistinct(desc, at, p, i + 1, j + 1);
    }
  }

  /** Pigeonhole. */
  lemma {:induction false} DistinctBounded(p: seq<nat>, n: nat)
    requires forall i :: 0 <= i < |p| ==> p[i] < n
    requires forall i, j :: 0 <= i < j < |p| ==> p[i] != p[j]
    ensures |p| <= n
    decreases n
  {
    if |p| > 0 {
      assert p[0] < n;
      if i :| 0 <= i < |p| && p[i] == n - 1 {
        var q := p[..i] + p[i + 1..];
        forall k | 0 <= k < |q|
          ensures q[k] == p[if k < i then k else k + 1]
        {
        }
        DistinctBounded(q, n - 1);
      } else {
        DistinctBounded(p, n - 1);
      }
    }
  }

  lemma ChainFits(desc: seq<Desc>, at: nat, p: seq<nat>)
    requires IsChain(desc, at, p)
    ensures |p| <= |desc|
  {
    forall i, j | 0 <= i < j < |p|
      ensures p[i] != p[j]
    {
      ChainDistinct(desc, at, p, i, j);
    }
    DistinctBounded(p, |desc|);
  }

  lemma {:induction false} FollowReaches(desc: seq<Desc>, at: nat, p: seq<nat>, guard: nat)
    requires IsChain(desc, at, p) && |p| <= guard
    ensures Follow(desc, at, guard) == Walk(p[..|p| - 1], Some(p[|p| - 1]))
    decreases guard
  {
    if |p| > 1 {
      assert IsChain(desc, desc[at].next, p[1..]) by {
        assert forall i | 0 <= i < |p[1..]| :: p[1..][i] == p[i + 1];
      }
      FollowReaches(desc, desc[at].next, p[1..], guard - 1);
      assert [at] + p[1..][..|p| - 2] == p[..|p| - 1];
    }
  }

  lemma {:induction false} FollowIsChain(desc: seq<Desc>, at: nat, guard: nat)
    requires Follow(desc, at, guard).status.Some?
    ensures var w := Follow(desc, at, guard); IsChain(desc, at, w.data + [w.status.value])
    decreases guard
  {
    if desc[at].hasNext {
      FollowIsChain(desc, desc[at].next, guard - 1);
      var w, rest := Follow(desc, at, guard), Follow(desc, desc[at].next, guard - 1);
      var p, q := w.data + [w.status.value], rest.data + [rest.status.value];
      assert p == [at] + q;
      assert forall i | 0 < i < |p| :: p[i] == q[i - 1];
    }
  }

  /**
   A guard of one step per table entry is exact: the walk reaches the end of the chain whenever
   there is one, and every chain that leaves the table, meets INDIRECT or runs in a cycle is rejected.
   */
  lemma FollowExactly(desc: seq<Desc>, at: nat)
    ensures Follow(desc, at, |desc|).status.Some? <==> exists p :: IsChain(desc, at, p)
    ensures forall p :: IsChain(desc, at, p) ==> Follow(desc, at, |desc|) == Walk(p[..|p| - 1], Some(p[|p| - 1]))
  {
    if Follow(desc, at, |desc|).status.Some? {
      FollowIsChain(desc, at, |desc|);
    }
    forall p | IsChain(desc, at, p)
      ensures Follow(desc, at, |desc|) == Walk(p[..|p| - 1], Some(p[|p| - 1]))
    {
      ChainFits(desc, at, p);
      FollowReaches(desc, at, p, |desc|);
    }
  }

  /** No guard, however large, lets a walk through that this one rejects. */
  lemma GuardStopsOnlyCycles(desc: seq<Desc>, at: nat, guard: nat)
    requires guard >= |desc|
    ensures Follow(desc, at, guard).status == Follow(desc, at, |desc|).status
  {
    FollowExactly(desc, at);
    if Follow(desc, at, guard).status.Some? {
      FollowIsChain(desc, at, guard);
    }
    if p :| IsChain(desc, at, p) {
      ChainFits(desc, at, p);
      FollowReaches(desc, at, p, guard);
    }
  }

  /** Following the links from `at` comes back to a descriptor. */
  ghost predicate RunsInCycle(desc: seq<Desc>, at: nat, p: seq<nat>, i: nat) {
    && i < |p| - 1 && p[0] == at && p[i] == p[|p| - 1]
    && forall k :: 0 <= k < |p| - 1 ==> p[k] < |desc| && desc[p[k]].hasNext && desc[p[k]].next == p[k + 1]
  }

  lemma {:induction false} SharedPrefix(desc: seq<Desc>, at: nat, chain: seq<nat>, p: seq<nat>, i: nat, k: nat)
    requires IsChain(desc, at, chain) && RunsInCycle(desc, at, p, i) && k < |p|
    ensures k < |chain| && chain[k] == p[k]
  {
    if k > 0 {
      SharedPrefix(desc, at, chain, p, i, k - 1);
    }
  }

  lemma CycleRejected(desc: seq<Desc>, at: nat, p: seq<nat>, i: nat)
    requires RunsInCycle(desc, at, p, i)
    ensures Follow(desc, at, |desc|).status == None
  {
    FollowExactly(desc, at);
    if chain :| IsChain(desc, at, chain) {
      SharedPrefix(desc, at, chain, p, i, i);
      SharedPrefix(desc, at, chain, p, i, |p| - 1);
      ChainDistinct(desc, at, chain, i, |p| - 1);
      assert false;
    }
  }
}
