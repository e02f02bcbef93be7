/** Printed headers: a 512-byte block that the reader takes for exactly the fields that were printed. */
module TarHeader {
  import opened HostTypes
  import opened SwiftText
  import opened TarNumbers
  import opened TarReader

  // ---------------------------------------------------------------- fields

  function Blank(n: nat): (r: Bytes)
    ensures |r| == n && AllZero(r)
  {
    seq(n, _ => 0)
  }

  /** A text in a field of its own, cut by a NUL unless it fills the field. */
  function TextField(text: Bytes, width: nat): (r: Bytes)
    requires |text| <= width
    ensures |r| == width
  {
    text + Blank(width - |text|)
  }

  /** A number in octal digits behind which a NUL stands, or in base 256 when it needs more room. */
  function NumberField(v: nat, width: nat): (r: Bytes)
    requires width > 1
    ensures |r| == width
  {
    if v < Power8(width - 1) then OctalText(v, width - 1) + [0] else Base256Text(v, width)[0 := 0x80]
  }

  lemma {:induction false} CFieldOfText(text: Bytes, width: nat)
    requires |text| <= width && 0 !in text
    ensures CField(TextField(text, width)) == text
  {
    hide Blank;
    CFieldBefore(text, Blank(width - |text|));
  }

  lemma {:induction false} CFieldBefore(text: Bytes, rest: Bytes)
    requires 0 !in text && (rest == [] || rest[0] == 0)
    ensures CField(text + rest) == text
  {
    if text == [] {
      assert text + rest == rest;
    } else {
      assert (text + rest)[1..] == text[1..] + rest;
      CFieldBefore(text[1..], rest);
    }
  }

  /** Both ways of printing a number are read back. */
  lemma NumberReadBack(v: nat, width: nat)
    requires width > 1 && v < Power256(width - 1) && v < U64
    ensures Numeric(NumberField(v, width)) == Ok(v)
  {
    if v < Power8(width - 1) {
      OctalRoundTrip(v, width - 1, [0]);
      var digits := OctalText(v, width - 1);
      assert (digits + [0])[0] == digits[0] && ZERO <= digits[0] < ZERO + 8;
      hide OctalText, ParseOctal;
    } else {
      Base256RoundTrip(v, width);
    }
  }

  // ---------------------------------------------------------------- the block

  /** The fields of a header. Owner names, magic and version are not read. */
  datatype Fields = Fields(prefix: Bytes, name: Bytes, mode: nat, uid: nat, gid: nat, size: nat, time: nat,
                           flag: Byte, link: Bytes, unread: Bytes, major: nat, minor: nat, tail: Bytes)

  predicate Text(b: Bytes, width: nat) {
    |b| <= width && 0 !in b && ValidUtf8(b)
  }

  /** What fits a header. */
  predicate Printable(f: Fields) {
    && Text(f.prefix, 155) && Text(f.name, 100) && Text(f.link, 100) && |f.unread| == 72 && |f.tail| == 12
    && f.mode < U32 && f.uid < U32 && f.gid < U32 && f.size < U64 && f.time < U64 && f.major < U32 && f.minor < U32
  }

  const WIDTHS: seq<nat> := [100, 8, 8, 8, 12, 12, 8, 1, 100, 72, 8, 8, 155, 12]

  /** Where field `i` begins. */
  function Offset(i: nat): nat
    requires i <= |WIDTHS|
  {
    if i == 0 then 0 else Offset(i - 1) + WIDTHS[i - 1]
  }

  predicate HasWidths(parts: seq<Bytes>) {
    |parts| == |WIDTHS| && forall i :: 0 <= i < |parts| ==> |parts[i]| == WIDTHS[i]
  }

  function Concat(parts: seq<Bytes>): Bytes {
    if parts == [] then [] else Concat(parts[..|parts| - 1]) + parts[|parts| - 1]
  }

  lemma {:induction false} ConcatLength(parts: seq<Bytes>, n: nat)
    requires HasWidths(parts) && n <= |parts|
    ensures |Concat(parts[..n])| == Offset(n)
  {
    if n > 0 {
      ConcatLength(parts, n - 1);
      assert parts[..n][..n - 1] == parts[..n - 1];
    }
  }

  /** Every part is where its widths put it. */
  lemma {:induction false} PartAt(parts: seq<Bytes>, n: nat, i: nat)
    requires HasWidths(parts) && i < n <= |parts|
    ensures Offset(i) + WIDTHS[i] <= |Concat(parts[..n])|
    ensures Concat(parts[..n])[Offset(i)..Offset(i) + WIDTHS[i]] == parts[i]
  {
    hide Concat, Offset;
    var front, last := Concat(parts[..n - 1]), parts[n - 1];
    LastPart(parts, n);
    hide HasWidths;
    if i < n - 1 {
      PartAt(parts, n - 1, i);
      SliceOfFront(front, last, Offset(i), Offset(i) + WIDTHS[i]);
    } else {
      SliceOfBack(front, last);
    }
  }

  lemma LastPart(parts: seq<Bytes>, n: nat)
    requires HasWidths(parts) && 0 < n <= |parts|
    ensures Concat(parts[..n]) == Concat(parts[..n - 1]) + parts[n - 1]
    ensures |Concat(parts[..n - 1])| == Offset(n - 1) && |parts[n - 1]| == WIDTHS[n - 1]
  {
    ConcatLength(parts, n - 1);
    assert parts[..n][..n - 1] == parts[..n - 1];
  }

  lemma SliceOfFront(a: Bytes, b: Bytes, lo: nat, hi: nat)
    requires lo <= hi <= |a|
    ensures (a + b)[lo..hi] == a[lo..hi]
  {
  }

  lemma SliceOfBack(a: Bytes, b: Bytes)
    ensures (a + b)[|a|..|a| + |b|] == b
  {
  }

  /** The parts of a header whose checksum field holds `sum`. */
  function Parts(f: Fields, sum: Bytes): (r: seq<Bytes>)
    requires Printable(f) && |sum| == 8
    ensures HasWidths(r)
  {
    [TextField(f.name, 100), NumberField(f.mode, 8), NumberField(f.uid, 8), NumberField(f.gid, 8),
     NumberField(f.size, 12), NumberField(f.time, 12), sum, [f.flag], TextField(f.link, 100), f.unread,
     NumberField(f.major, 8), NumberField(f.minor, 8), TextField(f.prefix, 155), f.tail]
  }

  const NO_SUM: Bytes := [SPACE, SPACE, SPACE, SPACE, SPACE, SPACE, SPACE, SPACE]

  /** The checksum of the header, as six octal digits, NUL and blank. */
  function SumField(f: Fields): (r: Bytes)
    requires Printable(f)
    ensures |r| == 8
  {
    OctalText(SumFrom(Concat(Parts(f, NO_SUM)), 0), 6) + [0, SPACE]
  }

  function PrintHeader(f: Fields): Bytes
    requires Printable(f)
  {
    Concat(Parts(f, SumField(f)))
  }

  lemma Offsets()
    ensures Offset(1) == 100 && Offset(2) == 108 && Offset(3) == 116 && Offset(4) == 124 && Offset(5) == 136
    ensures Offset(6) == 148 && Offset(7) == 156 && Offset(8) == 157 && Offset(9) == 257 && Offset(10) == 329
    ensures Offset(11) == 337 && Offset(12) == 345 && Offset(13) == 500 && Offset(14) == 512
  {
  }

  /** The slices the reader takes are the fields that were printed. */
  lemma FieldsAt(f: Fields, sum: Bytes)
    requires Printable(f) && |sum| == 8
    ensures var h := Concat(Parts(f, sum));
            && HeaderSized(h) && h[0..100] == TextField(f.name, 100) && h[100..108] == NumberField(f.mode, 8)
            && h[108..116] == NumberField(f.uid, 8) && h[116..124] == NumberField(f.gid, 8)
            && h[124..136] == NumberField(f.size, 12) && h[136..148] == NumberField(f.time, 12)
            && h[148..156] == sum && h[156..157] == [f.flag] && h[157..257] == TextField(f.link, 100)
            && h[329..337] == NumberField(f.major, 8) && h[337..345] == NumberField(f.minor, 8)
            && h[345..500] == TextField(f.prefix, 155)
  {
    hide Concat, TextField, NumberField, Printable;
    Offsets();
    var parts := Parts(f, sum);
    ConcatLength(parts, 14);
    assert parts[..14] == parts;
    forall i | 0 <= i < 14
      ensures Offset(i) + WIDTHS[i] <= |Concat(parts)| && Concat(parts)[Offset(i)..Offset(i) + WIDTHS[i]] == parts[i]
    {
      PartAt(parts, 14, i);
    }
    hide Offset;
    assert Offset(0) == 0 by {
      FirstOffset();
    }
  }

  lemma FirstOffset()
    ensures Offset(0) == 0
  {
  }

  // ---------------------------------------------------------------- the checksum

  lemma {:induction false} SumIgnores(a: Bytes, b: Bytes, i: nat)
    requires |a| == |b| && i <= |a|
    requires forall j :: 0 <= j < |a| && !(CHECKSUM_START <= j < CHECKSUM_END) ==> a[j] == b[j]
    ensures SumFrom(a, i) == SumFrom(b, i)
    decreases |a| - i
  {
    if i < |a| {
      SumIgnores(a, b, i + 1);
    }
  }

  lemma {:induction false} SumBound(h: Bytes, i: nat)
    requires i <= |h|
    ensures SumFrom(h, i) <= 0xff * (|h| - i)
    decreases |h| - i
  {
    if i < |h| {
      SumBound(h, i + 1);
    }
  }

  /** A byte of a header is a byte of its part. */
  lemma ByteOfPart(parts: seq<Bytes>, i: nat, j: nat)
    requires HasWidths(parts) && i < 14 && Offset(i) <= j < Offset(i) + WIDTHS[i]
    ensures j < |Concat(parts)| && Concat(parts)[j] == parts[i][j - Offset(i)]
  {
    assert parts[..14] == parts;
    PartAt(parts, 14, i);
    hide Concat, Offset, HasWidths;
    SliceByte(Concat(parts), Offset(i), Offset(i) + WIDTHS[i], j);
  }

  lemma SliceByte(b: Bytes, lo: nat, hi: nat, j: nat)
    requires lo <= j < hi <= |b|
    ensures b[lo..hi][j - lo] == b[j]
  {
  }

  lemma PartsLength(f: Fields, sum: Bytes)
    requires Printable(f) && |sum| == 8
    ensures |Concat(Parts(f, sum))| == 512
  {
    hide Concat, TextField, NumberField, Printable;
    var parts := Parts(f, sum);
    ConcatLength(parts, 14);
    assert parts[..14] == parts;
    Offsets();
  }

  lemma SamePart(f: Fields, sum: Bytes, i: nat)
    requires Printable(f) && |sum| == 8 && i < 14 && i != 6
    ensures Parts(f, sum)[i] == Parts(f, NO_SUM)[i]
  {
    hide TextField, NumberField, Printable, HasWidths;
  }

  /** Headers that differ in the checksum field only. */
  lemma SameBesideSum(f: Fields, sum: Bytes, j: nat)
    requires Printable(f) && |sum| == 8 && j < 512 && !(CHECKSUM_START <= j < CHECKSUM_END)
    ensures |Concat(Parts(f, sum))| == |Concat(Parts(f, NO_SUM))| == 512
    ensures Concat(Parts(f, sum))[j] == Concat(Parts(f, NO_SUM))[j]
  {
    PartsLength(f, sum);
    PartsLength(f, NO_SUM);
    hide Concat, TextField, NumberField, Printable, Offset;
    var i := PartOf(j);
    ByteOfPart(Parts(f, sum), i, j);
    ByteOfPart(Parts(f, NO_SUM), i, j);
    SamePart(f, sum, i);
  }

  /** The field a byte belongs to. */
  lemma PartOf(j: nat) returns (i: nat)
    requires j < 512
    ensures i < 14 && Offset(i) <= j < Offset(i) + WIDTHS[i]
    ensures i == 6 <==> CHECKSUM_START <= j < CHECKSUM_END
  {
    Offsets();
    FirstOffset();
    i := 0;
    while Offset(i) + WIDTHS[i] <= j
      invariant i < 14 && Offset(i) <= j
    {
      assert Offset(i + 1) == Offset(i) + WIDTHS[i];
      i := i + 1;
    }
    if i < 6 {
      OffsetsGrow(i + 1, 6);
    } else if i > 6 {
      OffsetsGrow(7, i);
    }
  }

  lemma {:induction false} OffsetsGrow(i: nat, k: nat)
    requires i <= k <= 14
    ensures Offset(i) <= Offset(k)
    decreases k - i
  {
    if i < k {
      assert Offset(k) == Offset(k - 1) + WIDTHS[k - 1];
      OffsetsGrow(i, k - 1);
    }
  }

  /** A printed header has the checksum the reader computes. */
  lemma PrintedSum(f: Fields)
    requires Printable(f)
    ensures HeaderSized(PrintHeader(f)) && Checksum(PrintHeader(f)) == Ok(()) && !AllZero(PrintHeader(f))
  {
    var blank, h := Concat(Parts(f, NO_SUM)), PrintHeader(f);
    var sum := SumFrom(blank, 0);
    FieldsAt(f, NO_SUM);
    FieldsAt(f, SumField(f));
    SumBound(blank, 0);
    assert 0xff * 512 < Power8(6);
    OctalRoundTrip(sum, 6, [0, SPACE]);
    hide Concat;
    forall j | 0 <= j < |h| && !(CHECKSUM_START <= j < CHECKSUM_END)
      ensures h[j] == blank[j]
    {
      SameBesideSum(f, SumField(f), j);
    }
    SumIgnores(h, blank, 0);
    assert h[148] == h[148..156][0] == OctalText(sum, 6)[0] >= ZERO;
  }

  // ---------------------------------------------------------------- what the reader makes of it

  function Or<T>(x: Option<T>, y: T): T {
    if x.Some? then x.value else y
  }

  function RawOf(f: Fields): Bytes {
    if f.prefix == [] then f.name else f.prefix + [SLASH] + f.name
  }

  predicate IsDevice(kind: Kind) {
    kind == CharacterDevice || kind == BlockDevice
  }

  /** The entry the fields stand for under an extended header, or why there is none. */
  function EntryOf(u: Library, f: Fields, x: Extended): Result<Option<Entry>> {
    var path :- Normalized(u, Or(x.path, RawOf(f)));
    if path == None then Ok(None)
    else if KindOf(f.flag) == None then Err(UnsupportedEntryType)
    else
      var kind := KindOf(f.flag).value;
      var device := IsDevice(kind);
      Assemble(path.value, kind, Sparse(u, x), Ok(Or(x.size, f.size)), Ok(Or(x.mode, f.mode)), Ok(Or(x.uid, f.uid)),
               Ok(Or(x.gid, f.gid)), Ok(Or(x.time, f.time)), LinkOf(u, Or(x.link, f.link), kind),
               Ok(if device then Some(f.major) else None), Ok(if device then Some(f.minor) else None), x.attributes)
  }

  lemma PowersFit()
    ensures U32 <= Power256(7) && U64 <= Power256(11) && U64 <= Power256(8)
  {
  }

  /** The numbers and texts of a header, as the reader finds them, are the fields. */
  ghost predicate Reads(h: Bytes, f: Fields) {
    && HeaderSized(h) && TypeFlag(h) == f.flag
    && StringOf(h[0..100]) == Ok(f.name) && StringOf(h[345..500]) == Ok(f.prefix) && StringOf(h[157..257]) == Ok(f.link)
    && Numeric(h[100..108]) == Ok(f.mode) && Numeric(h[108..116]) == Ok(f.uid) && Numeric(h[116..124]) == Ok(f.gid)
    && Numeric(h[124..136]) == Ok(f.size) && Numeric(h[136..148]) == Ok(f.time)
    && Numeric(h[329..337]) == Ok(f.major) && Numeric(h[337..345]) == Ok(f.minor)
  }

  lemma FieldsRead(f: Fields)
    requires Printable(f)
    ensures Reads(PrintHeader(f), f)
  {
    FieldsAt(f, SumField(f));
    PowersFit();
    hide Concat, NumberField, TextField, Numeric, Power256, SumField;
    NumberReadBack(f.mode, 8);
    NumberReadBack(f.uid, 8);
    NumberReadBack(f.gid, 8);
    NumberReadBack(f.size, 12);
    NumberReadBack(f.time, 12);
    NumberReadBack(f.major, 8);
    NumberReadBack(f.minor, 8);
    CFieldOfText(f.name, 100);
    CFieldOfText(f.link, 100);
    CFieldOfText(f.prefix, 155);
    assert PrintHeader(f)[156] == PrintHeader(f)[156..157][0];
  }

  lemma TextsTaken(u: Library, h: Bytes, f: Fields, x: Extended, kind: Kind)
    requires Reads(h, f)
    ensures RawPath(h, x) == Ok(Or(x.path, RawOf(f))) && LinkName(u, h, kind, x) == LinkOf(u, Or(x.link, f.link), kind)
  {
    hide Numeric, StringOf, Normalized;
  }

  lemma NumbersTaken(h: Bytes, f: Fields, x: Extended)
    requires Reads(h, f) && Printable(f)
    ensures Long(x.size, h[124..136]) == Ok(Or(x.size, f.size)) && Long(x.time, h[136..148]) == Ok(Or(x.time, f.time))
    ensures Word(x.mode, h[100..108]) == Ok(Or(x.mode, f.mode)) && Word(x.uid, h[108..116]) == Ok(Or(x.uid, f.uid))
    ensures Word(x.gid, h[116..124]) == Ok(Or(x.gid, f.gid))
  {
    hide Numeric, StringOf;
  }

  lemma DevicesTaken(h: Bytes, f: Fields, kind: Kind)
    requires Reads(h, f) && Printable(f)
    ensures Device(h[329..337], kind) == Ok(if IsDevice(kind) then Some(f.major) else None)
    ensures Device(h[337..345], kind) == Ok(if IsDevice(kind) then Some(f.minor) else None)
  {
    hide Numeric, StringOf;
  }

  /** The header reader, once the path is known. */
  lemma ParseHeaderIs(u: Library, h: Bytes, e: Extended, raw: Bytes, kind: Kind)
    requires HeaderSized(h) && RawPath(h, e) == Ok(raw)
    ensures Normalized(u, raw).Err? ==> ParseHeader(u, h, e) == Err(Normalized(u, raw).failure)
    ensures Normalized(u, raw) == Ok(None) ==> ParseHeader(u, h, e) == Ok(None)
    ensures Normalized(u, raw).Ok? && Normalized(u, raw).value.Some? && KindOf(TypeFlag(h)) == None ==>
              ParseHeader(u, h, e) == Err(UnsupportedEntryType)
    ensures Normalized(u, raw).Ok? && Normalized(u, raw).value.Some? && KindOf(TypeFlag(h)) == Some(kind) ==>
              ParseHeader(u, h, e)
              == Assemble(Normalized(u, raw).value.value, kind, Sparse(u, e), Long(e.size, h[124..136]),
                          Word(e.mode, h[100..108]), Word(e.uid, h[108..116]), Word(e.gid, h[116..124]),
                          Long(e.time, h[136..148]), LinkName(u, h, kind, e), Device(h[329..337], kind),
                          Device(h[337..345], kind), e.attributes)
  {
    hide RawPath, Normalized, LinkName, Sparse, Assemble, Long, Word, Device, KindOf, TypeFlag;
  }

  /** A header that reads as the fields is parsed as their entry. */
  lemma FieldsMeant(u: Library, h: Bytes, f: Fields, x: Extended)
    requires Reads(h, f) && Printable(f)
    ensures ParseHeader(u, h, x) == EntryOf(u, f, x)
  {
    assert HeaderSized(h) && TypeFlag(h) == f.flag;
    var kind := Or(KindOf(f.flag), RegularFile);
    TextsTaken(u, h, f, x, kind);
    NumbersTaken(h, f, x);
    DevicesTaken(h, f, kind);
    hide Reads, Printable, RawPath, Normalized, LinkName, LinkOf, Sparse, Assemble, Long, Word, Device, KindOf, RawOf;
    hide IsDevice, TypeFlag, ParseHeader;
    ParseHeaderIs(u, h, x, Or(x.path, RawOf(f)), kind);
  }

  /** The reader takes a printed header for its fields, under any extended header. */
  lemma HeaderReadBack(u: Library, f: Fields, x: Extended)
    requires Printable(f)
    ensures HeaderSized(PrintHeader(f)) && ParseHeader(u, PrintHeader(f), x) == EntryOf(u, f, x)
  {
    FieldsRead(f);
    FieldsMeant(u, PrintHeader(f), f, x);
    hide ParseHeader, EntryOf, PrintHeader;
  }
}
