/**
 Reading the records of a tar archive (Session/OrlixRootfsImport.swift): headers, pax and GNU extended
 headers for the entry that follows, and payloads padded to 512-byte blocks.
 */
module TarReader {
  import opened HostTypes
  import opened SwiftText
  import opened TarNumbers
  import opened TarAttributes

  const BLOCK: nat := 512
  const INT_MAX: nat := 0x7fff_ffff_ffff_ffff
  const U32: nat := 0x1_0000_0000

  datatype Kind = RegularFile | Directory | SymbolicLink | HardLink | CharacterDevice | BlockDevice | Fifo

  datatype Entry = Entry(path: Bytes, size: nat, mode: nat, uid: nat, gid: nat, kind: Kind, link: Option<Bytes>,
                         time: nat, major: Option<nat>, minor: Option<nat>, attributes: map<Bytes, Bytes>,
                         extents: seq<(nat, nat)>, logical: Option<nat>)

  /** An entry and where its payload begins. */
  datatype Record = Record(entry: Entry, start: nat)

  /** `OrlixRootfsTarPAXExtendedHeader`. */
  datatype Extended = Extended(path: Option<Bytes>, link: Option<Bytes>, size: Option<nat>, mode: Option<nat>,
                               uid: Option<nat>, gid: Option<nat>, time: Option<nat>, attributes: map<Bytes, Bytes>,
                               sparseMap: Option<Bytes>, sparseSize: Option<nat>, sparseRealSize: Option<nat>)

  const NOTHING := Extended(None, None, None, None, None, None, None, map[], None, None, None)

  // ---------------------------------------------------------------- paths

  /** Non-empty components of a path. */
  function Components(u: Library, path: Bytes): (r: seq<Bytes>)
    ensures forall i :: 0 <= i < |r| ==> r[i] != []
    decreases |path|
  {
    if path == [] then []
    else
      var i := FindLone(u, path, SLASH, 0);
      var rest := if i < |path| then Components(u, path[i + 1..]) else [];
      if i == 0 then rest else [path[..i]] + rest
  }

  function DropFirst(cs: seq<Bytes>): (r: seq<Bytes>)
    ensures |r| <= |cs|
  {
    if cs != [] && cs[0] == [DOT] then DropFirst(cs[1..]) else cs
  }

  function DropLast(cs: seq<Bytes>): (r: seq<Bytes>)
    ensures |r| <= |cs|
  {
    if cs != [] && cs[|cs| - 1] == [DOT] then DropLast(cs[..|cs| - 1]) else cs
  }

  function JoinPath(cs: seq<Bytes>): Bytes {
    if cs == [] then [] else if |cs| == 1 then cs[0] else cs[0] + [SLASH] + JoinPath(cs[1..])
  }

  /** `normalizedRelativePath`: nothing for the root itself. */
  function Normalized(u: Library, path: Bytes): Result<Option<Bytes>> {
    if path == [] || 0 in path || HasPrefix(u, path, [SLASH]) then Err(UnsafePath)
    else
      var cs := DropLast(DropFirst(Components(u, path)));
      if cs == [] then Ok(None)
      else if exists i :: 0 <= i < |cs| && (cs[i] == [DOT] || cs[i] == [DOT, DOT]) then Err(UnsafePath)
      else Ok(Some(JoinPath(cs)))
  }

  // ---------------------------------------------------------------- pax records

  predicate DecimalDigits(b: Bytes) {
    forall i :: 0 <= i < |b| ==> ZERO <= b[i] < ZERO + 10
  }

  function DecimalValue(b: Bytes): nat
    requires DecimalDigits(b)
  {
    if b == [] then 0 else 10 * DecimalValue(b[..|b| - 1]) + (b[|b| - 1] - ZERO)
  }

  const PLUS: Byte := 43
  const MINUS: Byte := 45

  /** A text without its sign. */
  function Digits(b: Bytes): Bytes {
    if b != [] && (b[0] == PLUS || b[0] == MINUS) then b[1..] else b
  }

  /** An unsigned number below a bound; behind a minus sign only zero. */
  function Signed(b: Bytes, value: nat, bound: nat): Option<nat> {
    if value < bound && (b != [] && b[0] == MINUS ==> value == 0) then Some(value) else None
  }

  /** Swift's parsing of an unsigned number: digits, with an optional sign, below a bound. */
  function Number(b: Bytes, bound: nat): Option<nat> {
    var digits := Digits(b);
    if digits != [] && DecimalDigits(digits) then Signed(b, DecimalValue(digits), bound) else None
  }

  function OctalNumber(b: Bytes, bound: nat): Option<nat> {
    var digits := Digits(b);
    if digits != [] && OctalDigits(digits) then Signed(b, OctalValue(digits), bound) else None
  }

  /** Seconds of a pax time stamp. */
  function Seconds(u: Library, b: Bytes): Option<nat>
    decreases |b|
  {
    var dot := FindLone(u, b, DOT, 0);
    if dot == 0 && b != [] then Seconds(u, b[1..])
    else
      var seconds := b[..dot];
      if seconds != [] && DecimalDigits(seconds) && DecimalValue(seconds) < U64 then Some(DecimalValue(seconds))
      else None
  }

  const PATH: Bytes := [112, 97, 116, 104]
  const LINKPATH: Bytes := [108, 105, 110, 107, 112, 97, 116, 104]
  const SIZE: Bytes := [115, 105, 122, 101]
  const MODE: Bytes := [109, 111, 100, 101]
  const UID: Bytes := [117, 105, 100]
  const GID: Bytes := [103, 105, 100]
  const MTIME: Bytes := [109, 116, 105, 109, 101]
  /** "GNU.sparse.map", "GNU.sparse.size", "GNU.sparse.realsize". */
  const SPARSE: Bytes := [71, 78, 85, 46, 115, 112, 97, 114, 115, 101, 46]
  const SPARSE_MAP: Bytes := SPARSE + [109, 97, 112]
  const SPARSE_SIZE: Bytes := SPARSE + SIZE
  const SPARSE_REALSIZE: Bytes := SPARSE + [114, 101, 97, 108, 115, 105, 122, 101]

  /** `apply(key:value:)`. */
  function Apply(u: Library, e: Extended, key: Bytes, value: Bytes): Result<Extended> {
    if key == PATH then Ok(e.(path := Some(value)))
    else if key == LINKPATH then Ok(e.(link := Some(value)))
    else if key == SIZE then
      (if Number(value, U64) == None then Err(InvalidPaxHeader) else Ok(e.(size := Number(value, U64))))
    else if key == UID then
      (if Number(value, U32) == None then Err(InvalidPaxHeader) else Ok(e.(uid := Number(value, U32))))
    else if key == GID then
      (if Number(value, U32) == None then Err(InvalidPaxHeader) else Ok(e.(gid := Number(value, U32))))
    else if key == MTIME then
      (if Seconds(u, value) == None then Err(InvalidPaxHeader) else Ok(e.(time := Seconds(u, value))))
    else if key == MODE then
      (if OctalNumber(value, U32) == None then Err(InvalidPaxHeader) else Ok(e.(mode := OctalNumber(value, U32))))
    else if key == SPARSE_MAP then Ok(e.(sparseMap := Some(value)))
    else if key == SPARSE_SIZE then
      (if Number(value, U64) == None then Err(InvalidPaxHeader) else Ok(e.(sparseSize := Number(value, U64))))
    else if key == SPARSE_REALSIZE then
      (if Number(value, U64) == None then Err(InvalidPaxHeader) else Ok(e.(sparseRealSize := Number(value, U64))))
    else
      var attribute :- Attribute(u, key, value);
      Ok(if attribute == None then e else e.(attributes := e.attributes[attribute.value.0 := attribute.value.1]))
  }

  /** Leading decimal digits. */
  function DigitCount(b: Bytes): (n: nat)
    ensures n <= |b| && DecimalDigits(b[..n]) && (n < |b| ==> !(ZERO <= b[n] < ZERO + 10))
  {
    if b == [] || !(ZERO <= b[0] < ZERO + 10) then 0
    else
      var n := DigitCount(b[1..]);
      assert b[..1 + n] == [b[0]] + b[1..][..n];
      1 + n
  }

  /** Length and contents of the record at the start of the bytes: digits, a blank, a key, a value, and a newline. */
  datatype PaxRecord = PaxRecord(length: nat, key: Bytes, value: Bytes)

  /** Bytes of the last Character of a text that ends in a newline: carriage return and newline are one. */
  function LastCharacter(b: Bytes): (n: nat)
    ensures 1 <= n <= 2
  {
    if |b| > 1 && b[|b| - 2] == RETURN then 2 else 1
  }

  /** `hasSuffix("\n")`. */
  predicate EndsLine(u: Library, b: Bytes) {
    b != [] && b[|b| - 1] == NEWLINE && (u.suffixByBytes || LastCharacter(b) == 1)
  }

  /** Key and value of a whole record. */
  function RecordOf(u: Library, record: Bytes): (r: Result<PaxRecord>)
    ensures r.Ok? ==> r.value.length == |record|
  {
    if !ValidUtf8(record) || !EndsLine(u, record) then Err(InvalidPaxHeader)
    else
      var space := FindLone(u, record, SPACE, 0);
      if space == |record| then Err(InvalidPaxHeader)
      else
        var equals := FindLone(u, record, EQUALS, space + 1);
        if equals == |record| then Err(InvalidPaxHeader)
        else Ok(PaxRecord(|record|, record[space + 1..equals], ValueOf(record, equals)))
  }

  /** What stands between an equals sign and the last Character. */
  function ValueOf(record: Bytes, equals: nat): Bytes
    requires equals < |record| && record[equals] == EQUALS && record[|record| - 1] == NEWLINE
  {
    var end := |record| - LastCharacter(record);
    assert end < |record| - 1 ==> record[end] == RETURN;
    record[equals + 1..end]
  }

  /** The record at the start of the bytes, which begin at `at` in the payload. */
  function FirstRecord(u: Library, b: Bytes, at: nat): (r: Result<PaxRecord>)
    ensures r.Ok? ==> 0 < r.value.length <= |b|
  {
    var n := DigitCount(b);
    if n == 0 || n == |b| || b[n] != SPACE then Err(InvalidPaxHeader)
    else
      var length := DecimalValue(b[..n]);
      if length == 0 || length > INT_MAX then Err(InvalidPaxHeader)
      else if at + length > INT_MAX then Err(Trap)
      else if length > |b| then Err(InvalidPaxHeader)
      else
        RecordOf(u, b[..length])
  }

  /** The records applied in order. */
  function Pax(u: Library, e: Extended, b: Bytes, at: nat): Result<Extended>
    decreases |b|
  {
    if b == [] then Ok(e)
    else
      var r :- FirstRecord(u, b, at);
      var next :- Apply(u, e, r.key, r.value);
      Pax(u, next, b[r.length..], at + r.length)
  }

  /** `parseGNULongName`. */
  function LongName(b: Bytes): Result<Bytes> {
    if CField(b) == [] || !ValidUtf8(CField(b)) then Err(InvalidLongName) else Ok(CField(b))
  }

  // ---------------------------------------------------------------- sparse maps

  /** Offsets and lengths, in turns. */
  function Extents(parts: seq<Bytes>): Result<seq<(nat, nat)>> {
    if parts == [] then Ok([])
    else if |parts| == 1 || Number(parts[0], U64) == None || Number(parts[1], U64) == None then Err(InvalidPaxHeader)
    else
      var rest :- Extents(parts[2..]);
      Ok([(Number(parts[0], U64).value, Number(parts[1], U64).value)] + rest)
  }

  function SparseExtents(u: Library, e: Extended): Result<seq<(nat, nat)>> {
    if e.sparseMap == None then Ok([]) else Extents(Pieces(u, e.sparseMap.value, COMMA))
  }

  function LogicalSize(e: Extended, extents: seq<(nat, nat)>): Result<Option<nat>> {
    if extents == [] then Ok(None)
    else if e.sparseRealSize.Some? then Ok(e.sparseRealSize)
    else if e.sparseSize.Some? then Ok(e.sparseSize)
    else Err(InvalidPaxHeader)
  }

  function Sparse(u: Library, e: Extended): Result<(seq<(nat, nat)>, Option<nat>)> {
    var extents :- SparseExtents(u, e);
    var logical :- LogicalSize(e, extents);
    Ok((extents, logical))
  }

  // ---------------------------------------------------------------- headers

  predicate HeaderSized(h: Bytes) {
    |h| == BLOCK
  }

  function TypeFlag(h: Bytes): Byte
    requires HeaderSized(h)
  {
    h[156]
  }

  function KindOf(flag: Byte): Option<Kind> {
    if flag == 0 || flag == 48 then Some(RegularFile)
    else if flag == 49 then Some(HardLink)
    else if flag == 50 then Some(SymbolicLink)
    else if flag == 51 then Some(CharacterDevice)
    else if flag == 52 then Some(BlockDevice)
    else if flag == 53 then Some(Directory)
    else if flag == 54 then Some(Fifo)
    else None
  }

  /** Swift's `UInt32(_:)` of a 64-bit value. */
  function Narrow(v: nat): Result<nat> {
    if v < U32 then Ok(v) else Err(Trap)
  }

  /** `string(_:range:)`. */
  function StringOf(field: Bytes): Result<Bytes> {
    if ValidUtf8(CField(field)) then Ok(CField(field)) else Err(InvalidString)
  }

  function RawPath(h: Bytes, e: Extended): Result<Bytes>
    requires HeaderSized(h)
  {
    if e.path.Some? then Ok(e.path.value)
    else
      var name :- StringOf(h[0..100]);
      var prefix :- StringOf(h[345..500]);
      Ok(if prefix == [] then name else prefix + [SLASH] + name)
  }

  function LinkOf(u: Library, raw: Bytes, kind: Kind): Result<Option<Bytes>> {
    if kind == HardLink then Normalized(u, raw)
    else if kind == SymbolicLink then (if raw == [] || 0 in raw then Err(UnsafeLinkName) else Ok(Some(raw)))
    else Ok(None)
  }

  function LinkName(u: Library, h: Bytes, kind: Kind, e: Extended): Result<Option<Bytes>>
    requires HeaderSized(h)
  {
    if kind != HardLink && kind != SymbolicLink then Ok(None)
    else if e.link.Some? then LinkOf(u, e.link.value, kind)
    else
      var raw :- StringOf(h[157..257]);
      LinkOf(u, raw, kind)
  }

  function Device(field: Bytes, kind: Kind): Result<Option<nat>>
    requires field != []
  {
    if kind != CharacterDevice && kind != BlockDevice then Ok(None)
    else
      var n :- Numeric(field);
      var v :- Narrow(n);
      Ok(Some(v))
  }

  /** A value of the extended header goes before the field of the header. */
  function Word(extended: Option<nat>, field: Bytes): Result<nat>
    requires field != []
  {
    if extended.Some? then Ok(extended.value)
    else
      var n :- Numeric(field);
      Narrow(n)
  }

  function Long(extended: Option<nat>, field: Bytes): Result<nat>
    requires field != []
  {
    if extended.Some? then Ok(extended.value) else Numeric(field)
  }

  /** The fields of an entry, in the order in which the reader looks at them. */
  function Assemble(path: Bytes, kind: Kind, sparse: Result<(seq<(nat, nat)>, Option<nat>)>, size: Result<nat>,
                    mode: Result<nat>, uid: Result<nat>, gid: Result<nat>, time: Result<nat>,
                    link: Result<Option<Bytes>>, major: Result<Option<nat>>, minor: Result<Option<nat>>,
                    attributes: map<Bytes, Bytes>)
    : Result<Option<Entry>>
  {
    var extents :- sparse;
    var s :- size;
    var m :- mode;
    var u :- uid;
    var g :- gid;
    var t :- time;
    var l :- link;
    var major :- major;
    var minor :- minor;
    Ok(Some(Entry(path, s, m, u, g, kind, l, t, major, minor, attributes, extents.0, extents.1)))
  }

  /** `parseHeader`: nothing for an entry that is the root. */
  function ParseHeader(u: Library, h: Bytes, e: Extended): Result<Option<Entry>>
    requires HeaderSized(h)
  {
    var raw :- RawPath(h, e);
    var path :- Normalized(u, raw);
    if path == None then Ok(None)
    else if KindOf(TypeFlag(h)) == None then Err(UnsupportedEntryType)
    else
      var kind := KindOf(TypeFlag(h)).value;
      Assemble(path.value, kind, Sparse(u, e), Long(e.size, h[124..136]), Word(e.mode, h[100..108]),
               Word(e.uid, h[108..116]), Word(e.gid, h[116..124]), Long(e.time, h[136..148]),
               LinkName(u, h, kind, e), Device(h[329..337], kind), Device(h[337..345], kind), e.attributes)
  }

  // ---------------------------------------------------------------- the archive

  function PaddedSize(n: nat): (r: nat)
    ensures n <= r < n + BLOCK && r % BLOCK == 0
  {
    (n + BLOCK - 1) / BLOCK * BLOCK
  }

  predicate AllZero(b: Bytes) {
    forall i :: 0 <= i < |b| ==> b[i] == 0
  }

  const PAX_HEADER: Byte := 120
  const GLOBAL_HEADER: Byte := 103
  const LONG_NAME: Byte := 76
  const LONG_LINK: Byte := 75

  predicate ExtendedType(flag: Byte) {
    flag == PAX_HEADER || flag == GLOBAL_HEADER || flag == LONG_NAME || flag == LONG_LINK
  }

  /** The extended header after a member that extends the next entry. */
  function Extend(u: Library, e: Extended, flag: Byte, payload: Bytes): Result<Extended>
    requires ExtendedType(flag)
  {
    if flag == PAX_HEADER then Pax(u, NOTHING, payload, 0)
    else if flag == GLOBAL_HEADER then Ok(e)
    else
      var name :- LongName(payload);
      Ok(if flag == LONG_NAME then e.(path := Some(name)) else e.(link := Some(name)))
  }

  /** Records from `offset` on, with the extended header `e` waiting for the next entry. */
  function RecordsFrom(u: Library, data: Bytes, offset: nat, e: Extended): Result<seq<Record>>
    decreases |data| - offset, 0
  {
    if offset >= |data| then Ok([])
    else if offset + BLOCK > |data| then Err(TruncatedHeader)
    else
      var h := data[offset..offset + BLOCK];
      if AllZero(h) then Ok([])
      else
        var _ :- Checksum(h);
        var size :- Numeric(h[124..136]);
        MemberFrom(u, data, offset + BLOCK, h, size, e)
  }

  /** The records from a header `h` on whose payload begins at `start`. */
  function MemberFrom(u: Library, data: Bytes, start: nat, h: Bytes, size: nat, e: Extended): Result<seq<Record>>
    requires HeaderSized(h)
    decreases |data| - start, 1
  {
    if size > INT_MAX || start + size > INT_MAX then Err(Trap)
    else if start + size > |data| then Err(TruncatedPayload)
    else if ExtendedType(TypeFlag(h)) then
      if start + PaddedSize(size) > INT_MAX then Err(Trap)
      else
        var next :- Extend(u, e, TypeFlag(h), data[start..start + size]);
        RecordsFrom(u, data, start + PaddedSize(size), next)
    else
      var entry :- ParseHeader(u, h, e);
      var length := if entry.Some? then entry.value.size else size;
      if start + length > INT_MAX || start + PaddedSize(length) > INT_MAX then Err(Trap)
      else if start + PaddedSize(length) > |data| then Err(TruncatedPayload)
      else
        var rest :- RecordsFrom(u, data, start + PaddedSize(length), NOTHING);
        Ok(if entry.Some? then [Record(entry.value, start)] + rest else rest)
  }

  function Prepend(front: seq<Record>, r: Result<seq<Record>>): Result<seq<Record>> {
    match r
    case Err(f) => Err(f)
    case Ok(rest) => Ok(front + rest)
  }

  lemma PrependTwice(front: seq<Record>, more: seq<Record>, r: Result<seq<Record>>)
    ensures Prepend(front, Prepend(more, r)) == Prepend(front + more, r)
  {
    if r.Ok? {
      assert front + (more + r.value) == (front + more) + r.value;
    }
  }

  lemma PrependNone(r: Result<seq<Record>>)
    ensures Prepend([], r) == r
  {
    if r.Ok? {
      assert [] + r.value == r.value;
    }
  }

  // ---------------------------------------------------------------- the reader's code

  /** The record at `offset` of a payload, and the records from there on. */
  function RecordFrom(u: Library, b: Bytes, offset: nat): (r: Result<PaxRecord>)
    requires offset <= |b|
    ensures r.Ok? ==> 0 < r.value.length <= |b| - offset
  {
    FirstRecord(u, b[offset..], offset)
  }

  function PaxFrom(u: Library, e: Extended, b: Bytes, offset: nat): Result<Extended>
    requires offset <= |b|
  {
    Pax(u, e, b[offset..], offset)
  }

  function PaxAfter(u: Library, e: Extended, b: Bytes, offset: nat, r: PaxRecord): Result<Extended>
    requires offset + r.length <= |b|
  {
    var next :- Apply(u, e, r.key, r.value);
    PaxFrom(u, next, b, offset + r.length)
  }

  lemma PaxAt(u: Library, e: Extended, b: Bytes, offset: nat)
    requires offset < |b|
    ensures RecordFrom(u, b, offset).Err? ==> PaxFrom(u, e, b, offset) == Err(RecordFrom(u, b, offset).failure)
    ensures RecordFrom(u, b, offset).Ok? ==>
              PaxFrom(u, e, b, offset) == PaxAfter(u, e, b, offset, RecordFrom(u, b, offset).value)
  {
    hide FirstRecord, Apply;
    var r := RecordFrom(u, b, offset);
    if r.Ok? {
      assert b[offset..][r.value.length..] == b[offset + r.value.length..];
    }
  }

  lemma PaxEnds(u: Library, e: Extended, b: Bytes)
    ensures PaxFrom(u, e, b, |b|) == Ok(e) && PaxFrom(u, e, b, 0) == Pax(u, e, b, 0)
  {
    assert b[0..] == b;
  }

  lemma ExtentsAt(parts: seq<Bytes>, i: nat, front: seq<(nat, nat)>)
    requires i + 1 < |parts|
    ensures Number(parts[i], U64) == None || Number(parts[i + 1], U64) == None ==>
              Extents(parts[i..]) == Err(InvalidPaxHeader)
    ensures Number(parts[i], U64).Some? && Number(parts[i + 1], U64).Some? ==>
              ExtentsBehind(front, Extents(parts[i..]))
              == ExtentsBehind(front + [(Number(parts[i], U64).value, Number(parts[i + 1], U64).value)],
                               Extents(parts[i + 2..]))
  {
    hide Number;
    var rest := parts[i..];
    assert rest[0] == parts[i] && rest[1] == parts[i + 1] && rest[2..] == parts[i + 2..];
    if Extents(rest).Ok? {
      assert front + Extents(rest).value == front + [Extents(rest).value[0]] + Extents(parts[i + 2..]).value;
    }
  }

  function ExtentsBehind(front: seq<(nat, nat)>, r: Result<seq<(nat, nat)>>): Result<seq<(nat, nat)>> {
    match r
    case Err(f) => Err(f)
    case Ok(rest) => Ok(front + rest)
  }

  lemma {:induction false} OddParts(parts: seq<Bytes>)
    requires |parts| % 2 == 1
    ensures Extents(parts) == Err(InvalidPaxHeader)
    decreases |parts|
  {
    hide Number;
    if |parts| > 1 {
      OddParts(parts[2..]);
    }
  }

  /** The loop of `sparseExtents`. */
  method ReadExtents(parts: seq<Bytes>) returns (r: Result<seq<(nat, nat)>>)
    ensures r == Extents(parts)
  {
    if |parts| % 2 == 1 {
      OddParts(parts);
      return Err(InvalidPaxHeader);
    }
    hide Number;
    var extents: seq<(nat, nat)>, index := [], 0;
    assert parts[0..] == parts && (Extents(parts).Ok? ==> [] + Extents(parts).value == Extents(parts).value);
    while index < |parts|
      invariant index % 2 == 0 && index <= |parts| && ExtentsBehind(extents, Extents(parts[index..])) == Extents(parts)
    {
      ExtentsAt(parts, index, extents);
      var offset, length := Number(parts[index], U64), Number(parts[index + 1], U64);
      if offset == None || length == None {
        return Err(InvalidPaxHeader);
      }
      extents, index := extents + [(offset.value, length.value)], index + 2;
    }
    assert parts[index..] == [] && extents + [] == extents;
    return Ok(extents);
  }

  /** One record, as the loop of `parsePAXExtendedHeader` handles it. */
  method ReadPaxRecord(u: Library, header: Extended, b: Bytes, offset: nat) returns (r: Result<Extended>, next: nat)
    requires offset < |b|
    ensures r.Err? ==> PaxFrom(u, header, b, offset) == Err(r.failure)
    ensures r.Ok? ==> offset < next <= |b| && PaxFrom(u, header, b, offset) == PaxFrom(u, r.value, b, next)
  {
    hide RecordFrom, PaxFrom, Apply;
    PaxAt(u, header, b, offset);
    var record := RecordFrom(u, b, offset);
    if record.Err? {
      return Err(record.failure), 0;
    }
    r, next := Apply(u, header, record.value.key, record.value.value), offset + record.value.length;
  }

  /** `parsePAXExtendedHeader`. */
  method ParsePaxHeader(u: Library, b: Bytes) returns (r: Result<Extended>)
    ensures r == Pax(u, NOTHING, b, 0)
  {
    var header, offset := NOTHING, 0;
    PaxEnds(u, header, b);
    hide PaxFrom, Pax;
    while offset < |b|
      invariant offset <= |b| && PaxFrom(u, header, b, offset) == Pax(u, NOTHING, b, 0)
    {
      var next, behind := ReadPaxRecord(u, header, b, offset);
      if next.Err? {
        return next;
      }
      header, offset := next.value, behind;
    }
    PaxEnds(u, header, b);
    return Ok(header);
  }

  /** Where the loop goes after one header. */
  datatype Turn = Stop | Fail(failure: Failure) | Next(offset: nat, extended: Extended, found: seq<Record>)

  /** What follows the size of a header. */
  method ReadMember(u: Library, data: Bytes, start: nat, h: Bytes, size: nat, e: Extended) returns (t: Turn)
    requires HeaderSized(h)
    ensures t != Stop
    ensures t.Fail? ==> MemberFrom(u, data, start, h, size, e) == Err(t.failure)
    ensures t.Next? ==> start <= t.offset
    ensures t.Next? ==>
              MemberFrom(u, data, start, h, size, e) == Prepend(t.found, RecordsFrom(u, data, t.offset, t.extended))
  {
    hide ParseHeader, Pax, LongName, RecordsFrom;
    if size > INT_MAX || start + size > INT_MAX {
      return Fail(Trap);
    }
    if start + size > |data| {
      return Fail(TruncatedPayload);
    }
    if ExtendedType(TypeFlag(h)) {
      if start + PaddedSize(size) > INT_MAX {
        return Fail(Trap);
      }
      var payload := data[start..start + size];
      var next := Extend(u, e, TypeFlag(h), payload);
      if TypeFlag(h) == PAX_HEADER {
        next := ParsePaxHeader(u, payload);
      }
      if next.Err? {
        return Fail(next.failure);
      }
      PrependNone(RecordsFrom(u, data, start + PaddedSize(size), next.value));
      return Next(start + PaddedSize(size), next.value, []);
    }
    var entry := ParseHeader(u, h, e);
    if entry.Err? {
      return Fail(entry.failure);
    }
    var length := if entry.value.Some? then entry.value.value.size else size;
    if start + length > INT_MAX || start + PaddedSize(length) > INT_MAX {
      return Fail(Trap);
    }
    if start + PaddedSize(length) > |data| {
      return Fail(TruncatedPayload);
    }
    PrependNone(RecordsFrom(u, data, start + PaddedSize(length), NOTHING));
    var found := if entry.value.Some? then [Record(entry.value.value, start)] else [];
    return Next(start + PaddedSize(length), NOTHING, found);
  }

  /** One header, as the loop handles it. */
  method ReadHeader(u: Library, data: Bytes, offset: nat, e: Extended) returns (t: Turn)
    requires offset < |data|
    ensures t.Stop? ==> RecordsFrom(u, data, offset, e) == Ok([])
    ensures t.Fail? ==> RecordsFrom(u, data, offset, e) == Err(t.failure)
    ensures t.Next? ==> offset < t.offset
    ensures t.Next? ==> RecordsFrom(u, data, offset, e) == Prepend(t.found, RecordsFrom(u, data, t.offset, t.extended))
  {
    hide Checksum, Numeric, MemberFrom, Prepend;
    if offset + BLOCK > |data| {
      return Fail(TruncatedHeader);
    }
    var h := data[offset..offset + BLOCK];
    if AllZero(h) {
      return Stop;
    }
    var checked := ValidateChecksum(h);
    if checked.Err? {
      return Fail(checked.failure);
    }
    var size := ParseNumeric(h[124..136]);
    if size.Err? {
      return Fail(size.failure);
    }
    t := ReadMember(u, data, offset + BLOCK, h, size.value, e);
  }

  /** `readRecords`. */
  method ReadRecords(u: Library, data: Bytes) returns (r: Result<seq<Record>>)
    ensures r == RecordsFrom(u, data, 0, NOTHING)
  {
    var records, e, offset := [], NOTHING, 0;
    PrependNone(RecordsFrom(u, data, 0, NOTHING));
    hide RecordsFrom, Prepend;
    while offset < |data|
      invariant Prepend(records, RecordsFrom(u, data, offset, e)) == RecordsFrom(u, data, 0, NOTHING)
      decreases |data| - offset
    {
      var t := ReadHeader(u, data, offset, e);
      match t
      case Stop =>
        PrependDone(records);
        return Ok(records);
      case Fail(f) =>
        PrependFailure(records, f);
        return Err(f);
      case Next(o, n, found) =>
        PrependTwice(records, found, RecordsFrom(u, data, o, n));
        records, e, offset := records + found, n, o;
    }
    EndOfData(u, data, offset, e);
    PrependDone(records);
    r := Ok(records);
  }

  lemma PrependDone(records: seq<Record>)
    ensures Prepend(records, Ok([])) == Ok(records)
  {
    assert records + [] == records;
  }

  lemma PrependFailure(records: seq<Record>, f: Failure)
    ensures Prepend(records, Err(f)) == Err(f)
  {
  }

  lemma EndOfData(u: Library, data: Bytes, offset: nat, e: Extended)
    requires offset >= |data|
    ensures RecordsFrom(u, data, offset, e) == Ok([])
  {
  }

  // ---------------------------------------------------------------- on every input

  /** Payloads that lie inside the data from `low` on, one after the other. */
  ghost predicate InOrder(rs: seq<Record>, low: nat, size: nat) {
    && (forall i :: 0 <= i < |rs| ==> low <= rs[i].start && rs[i].start + rs[i].entry.size <= size)
    && (forall i, j :: 0 <= i < j < |rs| ==> rs[i].start + rs[i].entry.size <= rs[j].start)
  }

  /** Whatever the data holds, the payload ranges returned are in bounds, in order, and disjoint. */
  lemma {:induction false} PayloadsInOrder(u: Library, data: Bytes, offset: nat, e: Extended)
    requires RecordsFrom(u, data, offset, e).Ok?
    ensures InOrder(RecordsFrom(u, data, offset, e).value, offset, |data|)
    decreases |data| - offset, 0
  {
    hide Checksum, Numeric, AllZero, MemberFrom;
    if offset + BLOCK <= |data| && !AllZero(data[offset..offset + BLOCK]) {
      var h := data[offset..offset + BLOCK];
      MemberInOrder(u, data, offset + BLOCK, h, Numeric(h[124..136]).value, e);
    }
  }

  lemma {:induction false} MemberInOrder(u: Library, data: Bytes, start: nat, h: Bytes, size: nat, e: Extended)
    requires HeaderSized(h) && MemberFrom(u, data, start, h, size, e).Ok?
    ensures InOrder(MemberFrom(u, data, start, h, size, e).value, start, |data|)
    decreases |data| - start, 1
  {
    hide ParseHeader, Extend, RecordsFrom;
    if ExtendedType(TypeFlag(h)) {
      PayloadsInOrder(u, data, start + PaddedSize(size), Extend(u, e, TypeFlag(h), data[start..start + size]).value);
    } else {
      var entry := ParseHeader(u, h, e).value;
      PayloadsInOrder(u, data, start + PaddedSize(if entry.Some? then entry.value.size else size), NOTHING);
    }
  }
}
