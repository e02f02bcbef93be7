/** A whole archive as it is printed, and what the reader makes of it. */
module TarArchive {
  import opened HostTypes
  import opened SwiftText
  import opened TarNumbers
  import opened TarReader
  import opened TarRecords
  import opened TarLayout
  import opened TarHeader

  /**
   What can stand in front of an entry: pax records, a GNU long name or link, or a global header, which is
   skipped.
   */
  datatype Extra =
    | Records(records: seq<PaxText>)
    | LongPath(text: Bytes)
    | LongTarget(text: Bytes)
    | Global(bytes: Bytes)

  /** An entry as it is printed: what extends it, its header, and its payload. */
  datatype Item = Item(extras: seq<Extra>, header: Fields, payload: Bytes)

  // ---------------------------------------------------------------- printing

  function ExtraFlag(x: Extra): (r: Byte)
    ensures ExtendedType(r)
  {
    match x
    case Records(_) => PAX_HEADER
    case LongPath(_) => LONG_NAME
    case LongTarget(_) => LONG_LINK
    case Global(_) => GLOBAL_HEADER
  }

  function ExtraPayload(x: Extra): Bytes {
    match x
    case Records(ts) => PrintAll(ts)
    case LongPath(text) => text + [0]
    case LongTarget(text) => text + [0]
    case Global(bytes) => bytes
  }

  /** A header without a name of its own. */
  function ExtraFields(x: Extra): Fields {
    Fields([], [], 0, 0, 0, |ExtraPayload(x)|, 0, ExtraFlag(x), [], Blank(72), 0, 0, Blank(12))
  }

  function ExtraMember(x: Extra): Member
    requires |ExtraPayload(x)| < U64
  {
    Member(PrintHeader(ExtraFields(x)), ExtraPayload(x))
  }

  predicate ExtrasFit(xs: seq<Extra>) {
    forall i :: 0 <= i < |xs| ==> |ExtraPayload(xs[i])| < U64
  }

  function ExtraMembers(xs: seq<Extra>): (r: seq<Member>)
    requires ExtrasFit(xs)
    ensures |r| == |xs| && forall i :: 0 <= i < |r| ==> r[i] == ExtraMember(xs[i])
  {
    seq(|xs|, i requires 0 <= i < |xs| => ExtraMember(xs[i]))
  }

  predicate Fits(t: Item) {
    ExtrasFit(t.extras) && Printable(t.header)
  }

  function PrintItem(t: Item): Group
    requires Fits(t)
  {
    Group(ExtraMembers(t.extras), Member(PrintHeader(t.header), t.payload))
  }

  predicate AllFit(ts: seq<Item>) {
    forall i :: 0 <= i < |ts| ==> Fits(ts[i])
  }

  function PrintItems(ts: seq<Item>): (r: seq<Group>)
    requires AllFit(ts)
    ensures |r| == |ts| && forall i :: 0 <= i < |r| ==> r[i] == PrintItem(ts[i])
  {
    seq(|ts|, i requires 0 <= i < |ts| => PrintItem(ts[i]))
  }

  // ---------------------------------------------------------------- meaning

  /** What can be told apart in what extends an entry, and what it extends. */
  ghost predicate ExtraTold(u: Library, x: Extra) {
    match x
    case Records(ts) => AllTold(u, ts) && |PrintAll(ts)| <= INT_MAX
    case LongPath(text) => text != [] && 0 !in text && ValidUtf8(text)
    case LongTarget(text) => text != [] && 0 !in text && ValidUtf8(text)
    case Global(_) => true
  }

  function ExtraMeans(u: Library, e: Extended, x: Extra): Result<Extended> {
    match x
    case Records(ts) => ApplyAll(u, NOTHING, ts)
    case LongPath(text) => Ok(e.(path := Some(text)))
    case LongTarget(text) => Ok(e.(link := Some(text)))
    case Global(_) => Ok(e)
  }

  function ExtrasMean(u: Library, e: Extended, xs: seq<Extra>): Result<Extended>
    decreases |xs|
  {
    if xs == [] then Ok(e)
    else
      var next :- ExtraMeans(u, e, xs[0]);
      ExtrasMean(u, next, xs[1..])
  }

  lemma ExtrasCons(u: Library, e: Extended, x: Extra, rest: seq<Extra>)
    ensures ExtrasMean(u, e, [x]) == ExtraMeans(u, e, x)
    ensures ExtraMeans(u, e, x).Ok? ==>
              ExtrasMean(u, e, [x] + rest) == ExtrasMean(u, ExtraMeans(u, e, x).value, rest)
    ensures ExtraMeans(u, e, x).Err? ==> ExtrasMean(u, e, [x] + rest) == Err(ExtraMeans(u, e, x).failure)
  {
    hide ExtraMeans;
    assert ([x] + rest)[0] == x && ([x] + rest)[1..] == rest && [x][1..] == [];
  }

  // ---------------------------------------------------------------- what a pax header forgets

  /** The last pax header among the extensions. */
  function LastPax(xs: seq<Extra>): Option<seq<PaxText>> {
    if xs == [] then None
    else if LastPax(xs[1..]).Some? then LastPax(xs[1..])
    else if xs[0].Records? then Some(xs[0].records)
    else None
  }

  predicate NoLongNames(xs: seq<Extra>) {
    forall x :: x in xs ==> !x.LongPath? && !x.LongTarget?
  }

  /** A pax header starts the extensions of the entry afresh; nothing that stood before it is kept. */
  lemma {:induction false} PaxStartsAfresh(u: Library, e: Extended, xs: seq<Extra>)
    requires NoLongNames(xs) && ExtrasMean(u, e, xs).Ok?
    ensures LastPax(xs).None? ==> ExtrasMean(u, e, xs) == Ok(e)
    ensures LastPax(xs).Some? ==> ExtrasMean(u, e, xs) == ApplyAll(u, NOTHING, LastPax(xs).value)
    decreases |xs|
  {
    hide ApplyAll;
    if xs != [] {
      var x, rest := xs[0], xs[1..];
      assert xs == [x] + rest && x in xs;
      ExtrasCons(u, e, x, rest);
      PaxStartsAfresh(u, ExtraMeans(u, e, x).value, rest);
    }
  }

  /**
   A GNU long name in front of an entry is the path of that entry exactly when no pax header stands
   between them, or the last one gives the same path itself.
   */
  lemma LongNameKeptExactly(u: Library, e: Extended, text: Bytes, xs: seq<Extra>)
    requires NoLongNames(xs) && ExtrasMean(u, e, [LongPath(text)] + xs).Ok?
    ensures LastPax(xs).Some? ==> ApplyAll(u, NOTHING, LastPax(xs).value).Ok?
    ensures ExtrasMean(u, e, [LongPath(text)] + xs).value.path == Some(text) <==>
            (LastPax(xs).None? || ApplyAll(u, NOTHING, LastPax(xs).value).value.path == Some(text))
  {
    ExtrasCons(u, e, LongPath(text), xs);
    PaxStartsAfresh(u, e.(path := Some(text)), xs);
  }

  lemma LongLinkKeptExactly(u: Library, e: Extended, text: Bytes, xs: seq<Extra>)
    requires NoLongNames(xs) && ExtrasMean(u, e, [LongTarget(text)] + xs).Ok?
    ensures LastPax(xs).Some? ==> ApplyAll(u, NOTHING, LastPax(xs).value).Ok?
    ensures ExtrasMean(u, e, [LongTarget(text)] + xs).value.link == Some(text) <==>
            (LastPax(xs).None? || ApplyAll(u, NOTHING, LastPax(xs).value).value.link == Some(text))
  {
    ExtrasCons(u, e, LongTarget(text), xs);
    PaxStartsAfresh(u, e.(link := Some(text)), xs);
  }

  /** Concrete failure: a long name followed by a pax header with the record `8 uid=0` is lost. */
  lemma LongNameLost(u: Library, e: Extended, text: Bytes)
    ensures ExtrasMean(u, e, [LongPath(text)] + [Records([PaxText([56], UID, [ZERO])])])
         == Ok(NOTHING.(uid := Some(0)))
  {
    var t := PaxText([56], UID, [ZERO]);
    assert DecimalValue([ZERO][..0]) == 0;
    assert Number([ZERO], U32) == Some(0);
    assert [t][1..] == [];
    assert ApplyAll(u, NOTHING, [t]) == Ok(NOTHING.(uid := Some(0)));
    ExtrasCons(u, e, LongPath(text), [Records([t])]);
    ExtrasCons(u, e.(path := Some(text)), Records([t]), []);
  }

  // ---------------------------------------------------------------- items

  /**
   The item is printed so that it stands for `entry`: its own fields under its own extensions, with a
   payload of the size the entry has. When an extension gives the size, the header may hold any size
   that does not pass the padded payload.
   */
  ghost predicate StandsFor(u: Library, t: Item, entry: Entry) {
    && Fits(t) && (forall i :: 0 <= i < |t.extras| ==> ExtraTold(u, t.extras[i]))
    && !ExtendedType(t.header.flag) && ExtrasMean(u, NOTHING, t.extras).Ok?
    && EntryOf(u, t.header, ExtrasMean(u, NOTHING, t.extras).value) == Ok(Some(entry))
    && entry.size == |t.payload| && t.header.size <= PaddedSize(|t.payload|)
  }

  ghost predicate AllStandFor(u: Library, ts: seq<Item>, entries: seq<Entry>) {
    |ts| == |entries| && forall i :: 0 <= i < |ts| ==> StandsFor(u, ts[i], entries[i])
  }

  // ---------------------------------------------------------------- reading back

  lemma PrintedGood(f: Fields)
    requires Printable(f)
    ensures GoodHeader(PrintHeader(f)) && TypeFlag(PrintHeader(f)) == f.flag
    ensures Numeric(PrintHeader(f)[124..136]) == Ok(f.size)
  {
    FieldsRead(f);
    PrintedSum(f);
    hide PrintHeader, Checksum, Numeric, AllZero, StringOf;
  }

  lemma LongRead(text: Bytes)
    requires text != [] && 0 !in text && ValidUtf8(text)
    ensures LongName(text + [0]) == Ok(text)
  {
    CFieldBefore(text, [0]);
  }

  lemma ExtraPrintable(x: Extra)
    requires |ExtraPayload(x)| < U64
    ensures Printable(ExtraFields(x))
  {
    hide ExtraPayload, Blank;
  }

  /** What the payload of an extension does to the header that is waiting. */
  lemma ExtraTaken(u: Library, e: Extended, x: Extra)
    requires ExtraTold(u, x)
    ensures Extend(u, e, ExtraFlag(x), ExtraPayload(x)) == ExtraMeans(u, e, x)
  {
    hide LongName, Pax, ApplyAll, ValidUtf8, AllTold;
    match x
    case Records(ts) => PaxReadBack(u, NOTHING, ts, 0);
    case LongPath(text) => LongRead(text);
    case LongTarget(text) => LongRead(text);
    case Global(_) =>
  }

  /** A printed extension is read as what it means. */
  lemma ExtraReadBack(u: Library, e: Extended, x: Extra)
    requires |ExtraPayload(x)| < U64 && ExtraTold(u, x)
    ensures Extension(ExtraMember(x)) && HeaderSized(ExtraMember(x).header)
    ensures TypeFlag(ExtraMember(x).header) == ExtraFlag(x)
    ensures Extend(u, e, ExtraFlag(x), ExtraPayload(x)) == ExtraMeans(u, e, x)
  {
    ExtraPrintable(x);
    hide PrintHeader, LongName, Pax, ApplyAll, Printable, GoodHeader, Numeric, ValidUtf8, AllTold, Extend, ExtraMeans;
    PrintedGood(ExtraFields(x));
    ExtraTaken(u, e, x);
  }

  lemma {:induction false} ExtrasReadBack(u: Library, e: Extended, xs: seq<Extra>)
    requires ExtrasFit(xs) && forall i :: 0 <= i < |xs| ==> ExtraTold(u, xs[i])
    ensures Pending(u, e, ExtraMembers(xs)) == ExtrasMean(u, e, xs)
    ensures forall i :: 0 <= i < |xs| ==> Extension(ExtraMembers(xs)[i])
    decreases |xs|
  {
    hide Extend, ExtraMeans, ExtraMember, ExtraTold, Extension;
    if xs != [] {
      ExtraReadBack(u, e, xs[0]);
      assert ExtraMembers(xs)[1..] == ExtraMembers(xs[1..]);
      MemberParts(xs[0]);
      var next := ExtraMeans(u, e, xs[0]);
      forall i | 0 <= i < |xs|
        ensures Extension(ExtraMembers(xs)[i])
      {
        ExtraReadBack(u, e, xs[i]);
      }
      if next.Ok? {
        ExtrasReadBack(u, next.value, xs[1..]);
      }
    }
  }

  lemma MemberParts(x: Extra)
    requires |ExtraPayload(x)| < U64
    ensures ExtraMember(x).payload == ExtraPayload(x)
  {
  }

  lemma ItemMeans(u: Library, t: Item, entry: Entry)
    requires StandsFor(u, t, entry)
    ensures Means(u, PrintItem(t), entry)
  {
    hide EntryOf, ParseHeader, GoodHeader, PrintHeader, Numeric, Extension, ExtraTold, ExtrasMean, Pending, Printable;
    ExtrasReadBack(u, NOTHING, t.extras);
    PrintedGood(t.header);
    HeaderReadBack(u, t.header, ExtrasMean(u, NOTHING, t.extras).value);
  }

  /**
   Reading inverts printing: for any list of entries, each printed as pax records, GNU long names and
   a header with a padded payload, the reader returns exactly these entries in order, with their payloads.
   */
  lemma PrintedArchive(u: Library, ts: seq<Item>, entries: seq<Entry>, trailer: Bytes)
    requires AllStandFor(u, ts, entries) && Ends(trailer)
    requires AllFit(ts) && |Layout(PrintItems(ts)) + trailer| <= INT_MAX
    ensures RecordsFrom(u, Layout(PrintItems(ts)) + trailer, 0, NOTHING) == Ok(Expected(PrintItems(ts), entries, 0))
  {
    hide StandsFor, Means, Fits, PrintItem;
    var gs := PrintItems(ts);
    forall i | 0 <= i < |gs|
      ensures Means(u, gs[i], entries[i])
    {
      assert StandsFor(u, ts[i], entries[i]);
      ItemMeans(u, ts[i], entries[i]);
    }
    ArchiveReadBack(u, gs, entries, trailer);
  }

  // ---------------------------------------------------------------- every entry

  function FlagOf(kind: Kind): (r: Byte)
    ensures KindOf(r) == Some(kind) && !ExtendedType(r)
  {
    match kind
    case RegularFile => 48
    case HardLink => 49
    case SymbolicLink => 50
    case CharacterDevice => 51
    case BlockDevice => 52
    case Directory => 53
    case Fifo => 54
  }

  /** The text of a link field; a hard link to the root itself is printed as a dot. */
  function LinkText(e: Entry): Bytes {
    if e.link.Some? then e.link.value else if e.kind == HardLink then [DOT] else []
  }

  predicate Short(text: Bytes) {
    |text| <= 100
  }

  /** How an entry is printed: paths and links that are too long for the header stand in front of it. */
  function ItemOf(e: Entry, payload: Bytes): Item {
    var path, link := e.path, LinkText(e);
    Item((if Short(path) then [] else [LongPath(path)]) + (if Short(link) then [] else [LongTarget(link)]),
         Fields([], if Short(path) then path else [], e.mode, e.uid, e.gid, e.size, e.time, FlagOf(e.kind),
                if Short(link) then link else [], Blank(72), Or(e.major, 0), Or(e.minor, 0), Blank(12)),
         payload)
  }

  /** An entry as the importer has them: with a normalised path, and numbers and links its kind can have. */
  ghost predicate Importable(u: Library, e: Entry) {
    && Normalized(u, e.path) == Ok(Some(e.path)) && ValidUtf8(e.path)
    && e.size < U64 && e.time < U64 && e.mode < U32 && e.uid < U32 && e.gid < U32
    && LinkOf(u, LinkText(e), e.kind) == Ok(e.link) && ValidUtf8(LinkText(e)) && 0 !in LinkText(e)
    && (if IsDevice(e.kind) then e.major.Some? && e.major.value < U32 && e.minor.Some? && e.minor.value < U32
        else e.major.None? && e.minor.None?)
    && e.attributes == map[] && e.extents == [] && e.logical == None
  }

  lemma ItemFits(u: Library, e: Entry, payload: Bytes)
    requires Importable(u, e) && |payload| <= INT_MAX && |e.path| < INT_MAX && |LinkText(e)| < INT_MAX
    ensures Fits(ItemOf(e, payload))
    ensures forall i :: 0 <= i < |ItemOf(e, payload).extras| ==> ExtraTold(u, ItemOf(e, payload).extras[i])
  {
    HeaderFits(u, e, payload);
    hide Importable, Normalized, LinkOf, Printable, ValidUtf8, Blank, LinkText;
    var xs := ItemOf(e, payload).extras;
    forall i | 0 <= i < |xs|
      ensures ExtraTold(u, xs[i]) && |ExtraPayload(xs[i])| < U64
    {
      assert xs[i] == LongPath(e.path) || (xs[i] == LongTarget(LinkText(e)) && !Short(LinkText(e)));
      TextsTold(u, e);
    }
  }

  lemma TextsTold(u: Library, e: Entry)
    requires Importable(u, e)
    ensures e.path != [] && 0 !in e.path && ValidUtf8(e.path) && 0 !in LinkText(e) && ValidUtf8(LinkText(e))
  {
    hide LinkOf, ValidUtf8;
  }

  lemma HeaderFits(u: Library, e: Entry, payload: Bytes)
    requires Importable(u, e)
    ensures Printable(ItemOf(e, payload).header)
  {
    TextsTold(u, e);
    assert ValidUtf8([]);
    hide Normalized, LinkOf, ValidUtf8, Blank, LinkText;
  }

  lemma ExtrasOf(u: Library, e: Entry, payload: Bytes)
    ensures ExtrasMean(u, NOTHING, ItemOf(e, payload).extras) ==
            Ok(NOTHING.(path := if Short(e.path) then None else Some(e.path))
                      .(link := if Short(LinkText(e)) then None else Some(LinkText(e))))
  {
    var path, link := e.path, LinkText(e);
    hide LinkText;
    if Short(path) && Short(link) {
      assert ItemOf(e, payload).extras == [];
    } else if Short(link) {
      assert ItemOf(e, payload).extras == [LongPath(path)];
      ExtrasCons(u, NOTHING, LongPath(path), []);
    } else if Short(path) {
      assert ItemOf(e, payload).extras == [LongTarget(link)];
      ExtrasCons(u, NOTHING, LongTarget(link), []);
    } else {
      assert ItemOf(e, payload).extras == [LongPath(path)] + [LongTarget(link)];
      ExtrasCons(u, NOTHING, LongPath(path), [LongTarget(link)]);
      ExtrasCons(u, NOTHING.(path := Some(path)), LongTarget(link), []);
    }
  }

  /** Every importable entry can be printed. */
  lemma EntryPrinted(u: Library, e: Entry, payload: Bytes)
    requires Importable(u, e) && e.size == |payload| <= INT_MAX && |e.path| < INT_MAX && |LinkText(e)| < INT_MAX
    ensures StandsFor(u, ItemOf(e, payload), e)
  {
    ItemFits(u, e, payload);
    ExtrasOf(u, e, payload);
    hide Normalized, LinkOf, ExtrasMean, Fits, ExtraTold, Pieces;
    var t := ItemOf(e, payload);
    var x := ExtrasMean(u, NOTHING, t.extras).value;
    assert Or(x.path, RawOf(t.header)) == e.path && Or(x.link, t.header.link) == LinkText(e);
    assert Sparse(u, x) == Ok(([], None));
  }

  datatype Content = Content(entry: Entry, payload: Bytes)

  function ItemsOf(cs: seq<Content>): (r: seq<Item>)
    ensures |r| == |cs| && forall i :: 0 <= i < |r| ==> r[i] == ItemOf(cs[i].entry, cs[i].payload)
  {
    seq(|cs|, i requires 0 <= i < |cs| => ItemOf(cs[i].entry, cs[i].payload))
  }

  function EntriesOf(cs: seq<Content>): (r: seq<Entry>)
    ensures |r| == |cs| && forall i :: 0 <= i < |r| ==> r[i] == cs[i].entry
  {
    seq(|cs|, i requires 0 <= i < |cs| => cs[i].entry)
  }

  ghost predicate AllImportable(u: Library, cs: seq<Content>) {
    forall i :: 0 <= i < |cs| ==>
      && Importable(u, cs[i].entry) && cs[i].entry.size == |cs[i].payload| <= INT_MAX
      && |cs[i].entry.path| < INT_MAX && |LinkText(cs[i].entry)| < INT_MAX
  }

  /** The records are the entries, in order, and their payloads are where they say. */
  ghost predicate ReadAs(data: Bytes, rs: seq<Record>, cs: seq<Content>) {
    && |rs| == |cs|
    && forall i :: 0 <= i < |rs| ==>
         && rs[i].entry == cs[i].entry && rs[i].start + |cs[i].payload| <= |data|
         && data[rs[i].start..rs[i].start + |cs[i].payload|] == cs[i].payload
  }

  lemma RecordsAre(cs: seq<Content>, ts: seq<Item>, trailer: Bytes)
    requires AllFit(ts) && |ts| == |cs| && forall i :: 0 <= i < |ts| ==> ts[i].payload == cs[i].payload
    requires |Layout(PrintItems(ts)) + trailer| <= INT_MAX
    ensures ReadAs(Layout(PrintItems(ts)) + trailer, Expected(PrintItems(ts), EntriesOf(cs), 0), cs)
  {
    hide Fits, PrintHeader;
    var gs, es := PrintItems(ts), EntriesOf(cs);
    var data := Layout(gs) + trailer;
    assert data[0..] == data;
    ExpectedLength(gs, es, 0);
    forall i | 0 <= i < |gs|
      ensures var r := Expected(gs, es, 0)[i];
              && r.entry == cs[i].entry && r.start + |cs[i].payload| <= |data|
              && data[r.start..r.start + |cs[i].payload|] == cs[i].payload
    {
      assert Fits(ts[i]) && gs[i] == PrintItem(ts[i]);
      PrintedSized(ts[i]);
      PayloadsInPlace(data, 0, gs, es, trailer, i);
      ExpectedEntry(gs, es, 0, i);
    }
  }

  lemma PrintedSized(t: Item)
    requires Fits(t)
    ensures HeaderSized(PrintItem(t).entry.header) && PrintItem(t).entry.payload == t.payload
  {
    PrintedGood(t.header);
  }

  lemma {:induction false} ExpectedEntry(gs: seq<Group>, es: seq<Entry>, at: nat, i: nat)
    requires |gs| == |es| && i < |gs|
    ensures |Expected(gs, es, at)| == |gs| && Expected(gs, es, at)[i].entry == es[i]
    decreases |gs|
  {
    hide Block, Blocks;
    ExpectedLength(gs, es, at);
    if i > 0 {
      ExpectedEntry(gs[1..], es[1..], at + |Blocks(gs[0].extensions)| + |Block(gs[0].entry)|, i - 1);
    }
  }

  lemma AllPrinted(u: Library, cs: seq<Content>)
    requires AllImportable(u, cs)
    ensures AllFit(ItemsOf(cs)) && AllStandFor(u, ItemsOf(cs), EntriesOf(cs))
    ensures forall i :: 0 <= i < |cs| ==> ItemsOf(cs)[i].payload == cs[i].payload
  {
    hide StandsFor, Fits, Importable, ItemOf;
    forall i | 0 <= i < |cs|
      ensures StandsFor(u, ItemsOf(cs)[i], cs[i].entry) && Fits(ItemsOf(cs)[i])
      ensures ItemsOf(cs)[i].payload == cs[i].payload
    {
      ItemPayload(cs[i].entry, cs[i].payload);
      ItemFits(u, cs[i].entry, cs[i].payload);
      EntryPrinted(u, cs[i].entry, cs[i].payload);
    }
  }

  lemma ItemPayload(e: Entry, payload: Bytes)
    ensures ItemOf(e, payload).payload == payload
  {
  }

  /** The bytes of an archive with these entries and payloads. */
  function Archive(cs: seq<Content>, trailer: Bytes): Bytes
    requires AllFit(ItemsOf(cs))
  {
    Layout(PrintItems(ItemsOf(cs))) + trailer
  }

  /** Any list of importable entries with their payloads is read back as it was printed. */
  lemma EntriesReadBack(u: Library, cs: seq<Content>, trailer: Bytes)
    requires AllImportable(u, cs) && Ends(trailer)
    ensures AllFit(ItemsOf(cs))
    ensures |Archive(cs, trailer)| <= INT_MAX ==>
              && RecordsFrom(u, Archive(cs, trailer), 0, NOTHING).Ok?
              && ReadAs(Archive(cs, trailer), RecordsFrom(u, Archive(cs, trailer), 0, NOTHING).value, cs)
  {
    AllPrinted(u, cs);
    hide AllImportable, AllFit, AllStandFor, ReadAs, RecordsFrom;
    hide Layout, PrintItems, ItemsOf, EntriesOf, Ends, Expected;
    if |Archive(cs, trailer)| <= INT_MAX {
      PrintedArchive(u, ItemsOf(cs), EntriesOf(cs), trailer);
      RecordsAre(cs, ItemsOf(cs), trailer);
    }
  }
}
