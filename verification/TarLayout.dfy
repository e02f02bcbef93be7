/** The reader inverts the layout of an archive: entries, each behind the extended headers that are meant for it. */
module TarLayout {
  import opened HostTypes
  import opened SwiftText
  import opened TarNumbers
  import opened TarReader
  import opened TarRecords

  // ---------------------------------------------------------------- members and groups

  datatype Member = Member(header: Bytes, payload: Bytes)

  /** An entry with the members in front of it that extend its header. */
  datatype Group = Group(extensions: seq<Member>, entry: Member)

  function Zeros(n: nat): (r: Bytes)
    ensures |r| == n && AllZero(r)
  {
    seq(n, _ => 0)
  }

  function Padding(m: Member): Bytes {
    Zeros(PaddedSize(|m.payload|) - |m.payload|)
  }

  /** A member in the archive: its header, then its payload padded to whole blocks. */
  function Block(m: Member): (r: Bytes)
    ensures |r| == |m.header| + PaddedSize(|m.payload|)
  {
    m.header + (m.payload + Padding(m))
  }

  function Blocks(ms: seq<Member>): Bytes {
    if ms == [] then [] else Block(ms[0]) + Blocks(ms[1..])
  }

  function Layout(gs: seq<Group>): Bytes {
    if gs == [] then [] else Blocks(gs[0].extensions) + (Block(gs[0].entry) + Layout(gs[1..]))
  }

  /** A header the reader accepts. */
  ghost predicate GoodHeader(h: Bytes) {
    HeaderSized(h) && !AllZero(h) && Checksum(h).Ok? && Numeric(h[124..136]).Ok?
  }

  ghost predicate Extension(m: Member) {
    GoodHeader(m.header) && ExtendedType(TypeFlag(m.header)) && Numeric(m.header[124..136]).value == |m.payload|
  }

  /** What extension headers in a row leave waiting for the next entry. */
  function Pending(u: Library, e: Extended, ms: seq<Member>): Result<Extended>
    decreases |ms|
  {
    if ms == [] then Ok(e)
    else if !HeaderSized(ms[0].header) || !ExtendedType(TypeFlag(ms[0].header)) then Err(UnsupportedEntryType)
    else
      var next :- Extend(u, e, TypeFlag(ms[0].header), ms[0].payload);
      Pending(u, next, ms[1..])
  }

  /** The entry a group stands for: its header under the extensions of this group, and of no other. */
  ghost predicate Means(u: Library, g: Group, entry: Entry) {
    && (forall i :: 0 <= i < |g.extensions| ==> Extension(g.extensions[i]))
    && GoodHeader(g.entry.header) && !ExtendedType(TypeFlag(g.entry.header))
    && Pending(u, NOTHING, g.extensions).Ok?
    && ParseHeader(u, g.entry.header, Pending(u, NOTHING, g.extensions).value) == Ok(Some(entry))
    && entry.size == |g.entry.payload| && Numeric(g.entry.header[124..136]).value <= PaddedSize(|g.entry.payload|)
  }

  ghost predicate MeanAll(u: Library, gs: seq<Group>, entries: seq<Entry>) {
    |gs| == |entries| && forall i :: 0 <= i < |gs| ==> Means(u, gs[i], entries[i])
  }

  /** The records of a layout that begins at `at`. */
  function Expected(gs: seq<Group>, entries: seq<Entry>, at: nat): seq<Record>
    requires |gs| == |entries|
  {
    if gs == [] then []
    else
      var entryAt := at + |Blocks(gs[0].extensions)|;
      [Record(entries[0], entryAt + BLOCK)] + Expected(gs[1..], entries[1..], entryAt + |Block(gs[0].entry)|)
  }

  // ---------------------------------------------------------------- the reader on a layout

  lemma BlockAt(data: Bytes, at: nat, m: Member)
    requires at + |Block(m)| <= |data| && data[at..at + |Block(m)|] == Block(m) && HeaderSized(m.header)
    ensures data[at..at + BLOCK] == m.header
    ensures data[at + BLOCK..at + BLOCK + |m.payload|] == m.payload
  {
    var b := Block(m);
    var slice := data[at..at + |b|];
    assert forall i | 0 <= i < |b| :: data[at + i] == slice[i];
    assert forall i | 0 <= i < BLOCK :: b[i] == m.header[i];
    assert forall i | 0 <= i < |m.payload| :: b[BLOCK + i] == m.payload[i];
  }

  lemma ExtensionStep(u: Library, data: Bytes, at: nat, m: Member, n: nat, e: Extended, next: Extended)
    requires at + n <= |data| <= INT_MAX && n == |Block(m)| && data[at..at + n] == Block(m) && Extension(m)
    requires Extend(u, e, TypeFlag(m.header), m.payload) == Ok(next)
    ensures RecordsFrom(u, data, at, e) == RecordsFrom(u, data, at + n, next)
  {
    hide Extend, Numeric, Checksum, AllZero, Block;
    BlockAt(data, at, m);
  }

  lemma EntryStep(u: Library, data: Bytes, at: nat, m: Member, e: Extended, entry: Entry)
    requires at + |Block(m)| <= |data| <= INT_MAX && data[at..at + |Block(m)|] == Block(m)
    requires GoodHeader(m.header) && !ExtendedType(TypeFlag(m.header)) && ParseHeader(u, m.header, e) == Ok(Some(entry))
    requires entry.size == |m.payload| && Numeric(m.header[124..136]).value <= PaddedSize(|m.payload|)
    ensures RecordsFrom(u, data, at, e)
          == Prepend([Record(entry, at + BLOCK)], RecordsFrom(u, data, at + |Block(m)|, NOTHING))
  {
    hide ParseHeader, Numeric, Checksum, AllZero, Block;
    BlockAt(data, at, m);
  }

  lemma PendingNext(u: Library, e: Extended, ms: seq<Member>) returns (next: Extended)
    requires ms != [] && Extension(ms[0]) && Pending(u, e, ms).Ok?
    ensures Blocks(ms) == Block(ms[0]) + Blocks(ms[1..])
    ensures HeaderSized(ms[0].header) && ExtendedType(TypeFlag(ms[0].header))
    ensures Extend(u, e, TypeFlag(ms[0].header), ms[0].payload) == Ok(next)
    ensures Pending(u, next, ms[1..]) == Pending(u, e, ms)
  {
    hide Extend, Block, TypeFlag;
    next := Extend(u, e, TypeFlag(ms[0].header), ms[0].payload).value;
  }

  lemma SplitAt(data: Bytes, at: nat, a: Bytes, b: Bytes)
    requires at + |a| + |b| <= |data| && data[at..at + |a + b|] == a + b
    ensures data[at..at + |a|] == a && data[at + |a|..at + |a| + |b|] == b
  {
    var s := data[at..at + |a + b|];
    assert s[..|a|] == a && s[|a|..] == b;
  }

  lemma SplitWhole(data: Bytes, at: nat, all: Bytes, a: Bytes, b: Bytes)
    requires at + |all| <= |data| && data[at..at + |all|] == all && all == a + b
    ensures |all| == |a| + |b| && data[at..at + |a|] == a && data[at + |a|..at + |all|] == b
  {
    SplitAt(data, at, a, b);
  }

  lemma {:induction false} ExtensionsStep(u: Library, data: Bytes, at: nat, ms: seq<Member>, e: Extended)
    requires at + |Blocks(ms)| <= |data| <= INT_MAX && data[at..at + |Blocks(ms)|] == Blocks(ms)
    requires (forall i :: 0 <= i < |ms| ==> Extension(ms[i])) && Pending(u, e, ms).Ok?
    ensures RecordsFrom(u, data, at, e) == RecordsFrom(u, data, at + |Blocks(ms)|, Pending(u, e, ms).value)
    decreases |ms|
  {
    hide Extend, Block, RecordsFrom, Extension;
    if ms != [] {
      var next := PendingNext(u, e, ms);
      hide Pending, Blocks, TypeFlag, ExtendedType, HeaderSized;
      var n := |Block(ms[0])|;
      SplitWhole(data, at, Blocks(ms), Block(ms[0]), Blocks(ms[1..]));
      ExtensionStep(u, data, at, ms[0], n, e, next);
      ExtensionsStep(u, data, at + n, ms[1..], next);
    }
  }

  /** What ends an archive: nothing, or a block of zeros and whatever is behind it. */
  predicate Ends(trailer: Bytes) {
    trailer == [] || (|trailer| >= BLOCK && AllZero(trailer[..BLOCK]))
  }

  /** Bytes that begin with a layout and go on with the trailer. */
  ghost predicate LaidOut(data: Bytes, at: nat, gs: seq<Group>, trailer: Bytes) {
    at <= |data| <= INT_MAX && data[at..] == Layout(gs) + trailer
  }

  /** Length of the first group of a layout. */
  function FirstLength(gs: seq<Group>): nat
    requires gs != []
  {
    |Blocks(gs[0].extensions)| + |Block(gs[0].entry)|
  }

  lemma NestFour(a: Bytes, b: Bytes, c: Bytes, d: Bytes)
    ensures a + (b + c) + d == a + (b + (c + d))
  {
    assert (b + c) + d == b + (c + d);
  }

  /** Three parts of the data from `at` on. */
  lemma ThreeParts(data: Bytes, at: nat, front: Bytes, block: Bytes, rest: Bytes)
    requires at <= |data| && data[at..] == front + (block + rest)
    ensures at + |front| + |block| <= |data| && data[at..at + |front|] == front
    ensures data[at + |front|..at + |front| + |block|] == block
    ensures data[at + |front| + |block|..] == rest
  {
    assert data[at..at + |front + (block + rest)|] == data[at..];
    SplitAt(data, at, front, block + rest);
    SplitAt(data, at + |front|, block, rest);
  }

  lemma GroupParts(data: Bytes, at: nat, gs: seq<Group>, trailer: Bytes)
    requires gs != [] && LaidOut(data, at, gs, trailer)
    ensures at + FirstLength(gs) <= |data| <= INT_MAX && LaidOut(data, at + FirstLength(gs), gs[1..], trailer)
    ensures var front, block := Blocks(gs[0].extensions), Block(gs[0].entry);
            data[at..at + |front|] == front && data[at + |front|..at + |front| + |block|] == block
  {
    hide Block, Blocks;
    var front, block, rest := Blocks(gs[0].extensions), Block(gs[0].entry), Layout(gs[1..]) + trailer;
    NestFour(front, block, Layout(gs[1..]), trailer);
    ThreeParts(data, at, front, block, rest);
  }

  lemma GroupStep(u: Library, data: Bytes, at: nat, gs: seq<Group>, entry: Entry, trailer: Bytes)
    requires gs != [] && LaidOut(data, at, gs, trailer) && Means(u, gs[0], entry)
    ensures LaidOut(data, at + FirstLength(gs), gs[1..], trailer)
    ensures RecordsFrom(u, data, at, NOTHING)
         == Prepend([Record(entry, at + |Blocks(gs[0].extensions)| + BLOCK)],
                    RecordsFrom(u, data, at + FirstLength(gs), NOTHING))
  {
    hide ParseHeader, Numeric, Checksum, Block, Blocks, Extend;
    hide Pending, GoodHeader, RecordsFrom, LaidOut, Prepend, Layout;
    var g := gs[0];
    GroupParts(data, at, gs, trailer);
    ExtensionsStep(u, data, at, g.extensions, NOTHING);
    EntryStep(u, data, at + |Blocks(g.extensions)|, g.entry, Pending(u, NOTHING, g.extensions).value, entry);
  }

  lemma TrailerStep(u: Library, data: Bytes, at: nat, trailer: Bytes)
    requires LaidOut(data, at, [], trailer) && Ends(trailer)
    ensures RecordsFrom(u, data, at, NOTHING) == Ok([])
  {
    assert data[at..] == trailer;
    if trailer != [] {
      assert data[at..at + BLOCK] == trailer[..BLOCK];
    }
  }

  /**
   The reader returns exactly the entries that were laid out, in order and with the places of their
   payloads, and every extended header goes to the entry behind it only.
   */
  lemma {:induction false} LayoutReadBack(u: Library, data: Bytes, at: nat, gs: seq<Group>, entries: seq<Entry>,
                                          trailer: Bytes)
    requires LaidOut(data, at, gs, trailer) && MeanAll(u, gs, entries) && Ends(trailer)
    ensures RecordsFrom(u, data, at, NOTHING) == Ok(Expected(gs, entries, at))
    decreases |gs|
  {
    hide LaidOut, Means, Ends, RecordsFrom, Block, Blocks;
    if gs == [] {
      TrailerStep(u, data, at, trailer);
    } else {
      assert Means(u, gs[0], entries[0]);
      assert MeanAll(u, gs[1..], entries[1..]);
      GroupStep(u, data, at, gs, entries[0], trailer);
      LayoutReadBack(u, data, at + FirstLength(gs), gs[1..], entries[1..], trailer);
    }
  }

  /** The payloads are where the records say. */
  lemma {:induction false} PayloadsInPlace(data: Bytes, at: nat, gs: seq<Group>, entries: seq<Entry>, trailer: Bytes,
                                           i: nat)
    requires LaidOut(data, at, gs, trailer) && |gs| == |entries| && i < |gs| && HeaderSized(gs[i].entry.header)
    ensures |Expected(gs, entries, at)| == |gs|
    ensures var start := Expected(gs, entries, at)[i].start;
            start + |gs[i].entry.payload| <= |data| && data[start..start + |gs[i].entry.payload|] == gs[i].entry.payload
    decreases |gs|
  {
    hide LaidOut, Block, Blocks;
    ExpectedLength(gs, entries, at);
    GroupParts(data, at, gs, trailer);
    if i == 0 {
      BlockSize(gs[0].entry);
      BlockAt(data, at + |Blocks(gs[0].extensions)|, gs[0].entry);
    } else {
      PayloadsInPlace(data, at + FirstLength(gs), gs[1..], entries[1..], trailer, i - 1);
    }
  }

  lemma BlockSize(m: Member)
    requires HeaderSized(m.header)
    ensures BLOCK + |m.payload| <= |Block(m)|
  {
  }

  lemma {:induction false} ExpectedLength(gs: seq<Group>, entries: seq<Entry>, at: nat)
    requires |gs| == |entries|
    ensures |Expected(gs, entries, at)| == |gs|
    decreases |gs|
  {
    hide Block, Blocks;
    if gs != [] {
      ExpectedLength(gs[1..], entries[1..], at + |Blocks(gs[0].extensions)| + |Block(gs[0].entry)|);
    }
  }

  /** A whole archive. */
  lemma ArchiveReadBack(u: Library, gs: seq<Group>, entries: seq<Entry>, trailer: Bytes)
    requires |Layout(gs) + trailer| <= INT_MAX && MeanAll(u, gs, entries) && Ends(trailer)
    ensures RecordsFrom(u, Layout(gs) + trailer, 0, NOTHING) == Ok(Expected(gs, entries, 0))
  {
    var data := Layout(gs) + trailer;
    assert data[0..] == data;
    LayoutReadBack(u, data, 0, gs, entries, trailer);
  }
}
