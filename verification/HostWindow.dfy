/**
 The kernel side of the user shadow (arch/orlix/mm/init.c): a host page covers several Linux
 pages, and the present ones are collected into the segment array of one window refresh.

 What a page fault and the page-table walk answer for each Linux page of the window is an input.
 */
module HostWindow {
  import opened HostTypes
  import opened ShadowModel
  import opened Arithmetic
  import opened ShadowShape
  import opened ShadowProofs

  const PAGE_SIZE: nat := 4096
  const TASK_SIZE: nat := 0x0000_7000_0000_0000
  const EFAULT: int := 14
  const ENOMEM: int := 12

  type ErrorCode = e: int | e < 0 witness -14

  /** `Missing` carries the negative error number; a frame number stands for `__va(PFN_PHYS(pfn))`. */
  datatype PageState = Missing(error: ErrorCode) | Present(pfn: nat, writable: bool, executable: bool)

  datatype Window = Failed(error: int) | Built(start: nat, end: nat, segments: seq<PageSegment>)

  function WindowStart(granule: nat, address: nat): (r: nat)
    requires granule > 0
  {
    address - address % granule
  }

  function WindowEnd(granule: nat, start: nat): nat {
    var end := (start + granule) % ADDRESS_SPACE;
    if end > TASK_SIZE || end < start then TASK_SIZE else end
  }

  function SegmentFor(target: nat, state: PageState): PageSegment
    requires state.Present?
  {
    PageSegment(target, state.pfn * PAGE_SIZE, PAGE_SIZE, state.writable, state.executable)
  }

  /** Segments of the present pages among the first `n` from `start`, in address order. */
  function Collect(start: nat, n: nat, pages: nat -> PageState): (r: seq<PageSegment>)
    ensures |r| <= n
  {
    if n == 0 then []
    else
      var cursor := start + PAGE_SIZE * (n - 1);
      Collect(start, n - 1, pages) + if pages(cursor).Present? then [SegmentFor(cursor, pages(cursor))] else []
  }

  /** `orlix_sync_user_host_window` up to the call of the host adapter. */
  method SyncUserHostWindow(granule: nat, page: nat, pages: nat -> PageState, memory: bool) returns (w: Window)
    requires granule > 0 && granule % PAGE_SIZE == 0 && ADDRESS_SPACE % granule == 0
    ensures var start := WindowStart(granule, page);
            var end := WindowEnd(granule, start);
            && (w.Built? ==>
                w.start == start < end == w.end && w.segments == Collect(start, (end - start) / PAGE_SIZE, pages))
            && (w.Built? <==> memory && page < end && page % PAGE_SIZE == 0 && pages(page).Present?)
  {
    var windowStart := WindowStart(granule, page);
    var windowEnd := WindowEnd(granule, windowStart);
    WindowAligned(granule, page);
    hide WindowStart, WindowEnd;
    PagesPositive(windowStart, windowEnd);
    var windowPages := (windowEnd - windowStart) % ADDRESS_SPACE / PAGE_SIZE;
    if windowPages == 0 {
      return Failed(-EFAULT);
    }
    if !memory {
      return Failed(-ENOMEM);
    }
    var segments, pageResult := CollectPages(windowStart, windowEnd, page, pages);
    if pageResult != 0 {
      return Failed(pageResult);
    }
    return Built(windowStart, windowEnd, segments);
  }

  /** The loop over the Linux pages of the window, and the result for the requested one. */
  method CollectPages(start: nat, end: nat, page: nat, pages: nat -> PageState)
    returns (segments: seq<PageSegment>, pageResult: int)
    requires start % PAGE_SIZE == 0 && end % PAGE_SIZE == 0 && start <= page
    ensures start < end ==> segments == Collect(start, (end - start) / PAGE_SIZE, pages)
    ensures pageResult == 0 <==> page < end && page % PAGE_SIZE == 0 && pages(page).Present?
  {
    segments, pageResult := [], -EFAULT;
    var cursor := start;
    ghost var n := 0;
    while cursor < end
      invariant cursor == start + PAGE_SIZE * n
      invariant if start < end then cursor <= end else n == 0
      invariant segments == Collect(start, n, pages)
      invariant pageResult == 0 <==> page < cursor && page % PAGE_SIZE == 0 && pages(page).Present?
      decreases end - cursor
    {
      match pages(cursor) {
        case Missing(error) =>
          if cursor == page {
            pageResult := error;
          }
        case Present(_, _, _) =>
          segments := segments + [SegmentFor(cursor, pages(cursor))];
          if cursor == page {
            pageResult := 0;
          }
      }
      cursor := cursor + PAGE_SIZE;
      n := n + 1;
    }
  }

  lemma WindowAligned(granule: nat, page: nat)
    requires granule > 0 && granule % PAGE_SIZE == 0 && ADDRESS_SPACE % granule == 0
    ensures var start := WindowStart(granule, page);
            start % PAGE_SIZE == 0 && start <= page && WindowEnd(granule, start) % PAGE_SIZE == 0
            && WindowEnd(granule, start) <= TASK_SIZE
  {
    StartAligned(granule, page);
    hide WindowStart;
    EndAligned(granule, WindowStart(granule, page));
  }

  lemma StartAligned(granule: nat, page: nat)
    requires granule > 0 && granule % PAGE_SIZE == 0
    ensures WindowStart(granule, page) % PAGE_SIZE == 0 && WindowStart(granule, page) <= page
  {
    var q, n := granule / PAGE_SIZE, page / granule;
    assert granule == PAGE_SIZE * q;
    MultipleOfMultiple(q, n);
    assert page - page % granule == granule * n;
  }

  lemma EndAligned(granule: nat, start: nat)
    requires granule % PAGE_SIZE == 0 && start % PAGE_SIZE == 0
    ensures WindowEnd(granule, start) % PAGE_SIZE == 0 && WindowEnd(granule, start) <= TASK_SIZE
  {
    WrapKeepsAlignment(start + granule);
  }

  lemma WrapKeepsAlignment(a: nat)
    requires a % PAGE_SIZE == 0
    ensures (a % ADDRESS_SPACE) % PAGE_SIZE == 0
  {
    var k, q := a / PAGE_SIZE, a / ADDRESS_SPACE;
    assert a % ADDRESS_SPACE == PAGE_SIZE * (k - 0x10_0000_0000_0000 * q);
  }

  /** The page count of the allocation is 0 only for an empty window. */
  lemma PagesPositive(start: nat, end: nat)
    requires end <= TASK_SIZE && start % PAGE_SIZE == 0 && end % PAGE_SIZE == 0
    ensures start < end ==> (end - start) % ADDRESS_SPACE / PAGE_SIZE > 0
  {
    if start < end {
      assert (end - start) % ADDRESS_SPACE == end - start;
    }
  }

  lemma MultipleOfMultiple(q: nat, n: nat)
    ensures (PAGE_SIZE * q * n) % PAGE_SIZE == 0
  {
    assert PAGE_SIZE * q * n == PAGE_SIZE * (q * n);
  }

  /** Collected segments are whole pages of the window, ascending, one per present page. */
  ghost predicate IsWindowList(start: nat, n: nat, pages: nat -> PageState, r: seq<PageSegment>) {
    && (forall i :: 0 <= i < |r| ==>
          && start <= r[i].target && r[i].target + PAGE_SIZE <= start + PAGE_SIZE * n
          && (r[i].target - start) % PAGE_SIZE == 0
          && pages(r[i].target).Present? && r[i] == SegmentFor(r[i].target, pages(r[i].target)))
    && (forall i, j :: 0 <= i < j < |r| ==> r[i].target + PAGE_SIZE <= r[j].target)
  }

  lemma {:induction false} CollectShape(start: nat, n: nat, pages: nat -> PageState)
    ensures IsWindowList(start, n, pages, Collect(start, n, pages))
  {
    if n > 0 {
      CollectShape(start, n - 1, pages);
    }
  }

  lemma {:induction false} CollectComplete(start: nat, n: nat, pages: nat -> PageState, page: nat)
    requires start <= page < start + PAGE_SIZE * n && (page - start) % PAGE_SIZE == 0 && pages(page).Present?
    ensures SegmentFor(page, pages(page)) in Collect(start, n, pages)
  {
    if page != start + PAGE_SIZE * (n - 1) {
      CollectComplete(start, n - 1, pages, page);
    }
  }

  /** The pages the loop asks about. */
  predicate InWindow(start: nat, end: nat, p: nat) {
    start <= p < end && (p - start) % PAGE_SIZE == 0
  }

  /** Pages of the window have distinct frames, none of them frame 0, and all of them inside memory. */
  ghost predicate GoodFrames(start: nat, end: nat, pages: nat -> PageState, ramSize: nat) {
    && (forall p :: InWindow(start, end, p) && pages(p).Present? ==>
          0 < pages(p).pfn && (pages(p).pfn + 1) * PAGE_SIZE <= ramSize)
    && (forall p, q :: InWindow(start, end, p) && InWindow(start, end, q) && p != q ==>
          pages(p).Present? && pages(q).Present? ==> pages(p).pfn != pages(q).pfn)
  }

  /**
   What the host adapter demands of a window, but does not check, holds of every window the kernel
   builds: pages lie inside, and neither their targets nor their sources overlap.
   */
  lemma BuiltWindowIsAcceptable(granule: nat, page: nat, pages: nat -> PageState, ramSize: nat)
    requires granule > 0 && granule % PAGE_SIZE == 0 && ADDRESS_SPACE % granule == 0
    requires GoodFrames(WindowStart(granule, page), WindowEnd(granule, WindowStart(granule, page)), pages, ramSize)
    requires granule <= page < WindowEnd(granule, WindowStart(granule, page)) && page % PAGE_SIZE == 0
    requires pages(page).Present?
    ensures var start := WindowStart(granule, page);
            var end := WindowEnd(granule, start);
            var segments := Collect(start, (end - start) / PAGE_SIZE, pages);
            && !BadRange(start, end - start) && granule <= start
            && SegmentFor(page, pages(page)) in segments
            && InputsReadable(segments, ramSize) && InputsApart(segments, true)
            && forall x :: x in segments ==> InputOk(x, start, end)
  {
    var start := WindowStart(granule, page);
    var end := WindowEnd(granule, start);
    WindowAligned(granule, page);
    PageStartAligned(granule, page);
    AlignedBelow(granule, 0, start);
    hide WindowStart, WindowEnd, GoodFrames;
    var n := (end - start) / PAGE_SIZE;
    PageCount(start, end, page, n);
    CollectShape(start, n, pages);
    CollectComplete(start, n, pages, page);
    CollectAcceptable(start, end, pages, Collect(start, (end - start) / PAGE_SIZE, pages), ramSize);
  }

  lemma PageCount(start: nat, end: nat, page: nat, n: nat)
    requires start <= page < end && n == (end - start) / PAGE_SIZE
    requires start % PAGE_SIZE == 0 && end % PAGE_SIZE == 0 && page % PAGE_SIZE == 0
    ensures start + PAGE_SIZE * n == end && (page - start) % PAGE_SIZE == 0 && (end - start) % PAGE_SIZE == 0
  {
  }

  lemma CollectAcceptable(start: nat, end: nat, pages: nat -> PageState, r: seq<PageSegment>, ramSize: nat)
    requires start <= end <= TASK_SIZE && (end - start) % PAGE_SIZE == 0
    requires GoodFrames(start, end, pages, ramSize) && IsWindowList(start, (end - start) / PAGE_SIZE, pages, r)
    ensures InputsReadable(r, ramSize) && InputsApart(r, true)
    ensures forall x :: x in r ==> InputOk(x, start, end)
  {
    FramesApart(start, end, pages, r, ramSize);
    forall x | x in r
      ensures InputOk(x, start, end) && x.source + x.length <= ramSize
    {
      var i :| 0 <= i < |r| && r[i] == x;
      assert InWindow(start, end, x.target);
    }
  }

  lemma FramesApart(start: nat, end: nat, pages: nat -> PageState, r: seq<PageSegment>, ramSize: nat)
    requires start <= end && (end - start) % PAGE_SIZE == 0 && GoodFrames(start, end, pages, ramSize)
    requires IsWindowList(start, (end - start) / PAGE_SIZE, pages, r)
    ensures InputsApart(r, true)
  {
    forall i, j | 0 <= i < j < |r|
      ensures !SegmentOf(r[i]).Hits(r[j].target, r[j].target + r[j].length)
      ensures SegmentOf(r[i]).SourceApart(SegmentOf(r[j]))
    {
      assert r[i].target != r[j].target;
      assert InWindow(start, end, r[i].target) && InWindow(start, end, r[j].target);
      assert pages(r[i].target).pfn != pages(r[j].target).pfn;
    }
  }
}
