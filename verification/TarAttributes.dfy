/**
 Extended attributes in pax records (Session/OrlixRootfsImport.swift): a plain name and value, or a
 percent-encoded name with a value in base 64.
 */
module TarAttributes {
  import opened HostTypes
  import opened SwiftText
  import opened TarNumbers

  const PERCENT: Byte := 37

  /** "SCHILY.xattr." and "LIBARCHIVE.xattr.". */
  const XATTR: Bytes := [46, 120, 97, 116, 116, 114, 46]
  const SCHILY: Bytes := [83, 67, 72, 73, 76, 89] + XATTR
  const LIBARCHIVE: Bytes := [76, 73, 66, 65, 82, 67, 72, 73, 86, 69] + XATTR

  // ---------------------------------------------------------------- percent-encoded names

  function HexValue(b: Byte): (r: Option<nat>)
    ensures r.Some? ==> r.value < 16
  {
    if 48 <= b <= 57 then Some(b - 48)
    else if 97 <= b <= 102 then Some(b - 97 + 10)
    else if 65 <= b <= 70 then Some(b - 65 + 10)
    else None
  }

  predicate Escaped(b: Bytes, i: nat) {
    i + 2 < |b| && HexValue(b[i + 1]).Some? && HexValue(b[i + 2]).Some?
  }

  /** What the percent signs of a text stand for; only ASCII may stand for itself. */
  function Unescaped(b: Bytes): Result<Bytes> {
    if b == [] then Ok([])
    else if b[0] == PERCENT then
      if !Escaped(b, 0) then Err(InvalidPaxHeader)
      else
        var rest :- Unescaped(b[3..]);
        Ok([16 * HexValue(b[1]).value + HexValue(b[2]).value] + rest)
    else if b[0] >= ASCII then Err(InvalidPaxHeader)
    else
      var rest :- Unescaped(b[1..]);
      Ok([b[0]] + rest)
  }

  function UrlDecode(b: Bytes): Result<Bytes> {
    var bytes :- Unescaped(b);
    if ValidUtf8(bytes) then Ok(bytes) else Err(InvalidPaxHeader)
  }

  function Behind(front: Bytes, r: Result<Bytes>): Result<Bytes> {
    match r
    case Err(f) => Err(f)
    case Ok(rest) => Ok(front + rest)
  }

  lemma UnescapedAt(b: Bytes, i: nat, front: Bytes)
    requires i < |b|
    ensures b[i] == PERCENT && !Escaped(b, i) ==> Unescaped(b[i..]) == Err(InvalidPaxHeader)
    ensures b[i] == PERCENT && Escaped(b, i) ==>
              Behind(front, Unescaped(b[i..]))
              == Behind(front + [16 * HexValue(b[i + 1]).value + HexValue(b[i + 2]).value], Unescaped(b[i + 3..]))
    ensures b[i] != PERCENT && b[i] >= ASCII ==> Unescaped(b[i..]) == Err(InvalidPaxHeader)
    ensures b[i] != PERCENT && b[i] < ASCII ==>
              Behind(front, Unescaped(b[i..])) == Behind(front + [b[i]], Unescaped(b[i + 1..]))
  {
    var rest := b[i..];
    assert rest[0] == b[i] && rest[1..] == b[i + 1..] && (Escaped(b, i) <==> Escaped(rest, 0));
    if b[i] == PERCENT && Escaped(b, i) {
      assert rest[3..] == b[i + 3..];
      BehindTwice(front, [16 * HexValue(b[i + 1]).value + HexValue(b[i + 2]).value], Unescaped(rest[3..]));
    } else if b[i] != PERCENT && b[i] < ASCII {
      BehindTwice(front, [b[i]], Unescaped(rest[1..]));
    }
  }

  lemma BehindTwice(front: Bytes, more: Bytes, r: Result<Bytes>)
    ensures Behind(front, Behind(more, r)) == Behind(front + more, r)
  {
    if r.Ok? {
      assert front + (more + r.value) == front + more + r.value;
    }
  }

  /** The loop of `urlDecode`. */
  method DecodeUrl(value: Bytes) returns (r: Result<Bytes>)
    ensures r == UrlDecode(value)
  {
    var bytes: Bytes, index := [], 0;
    assert value[0..] == value;
    BehindNone(Unescaped(value));
    while index < |value|
      invariant index <= |value| && Behind(bytes, Unescaped(value[index..])) == Unescaped(value)
    {
      UnescapedAt(value, index, bytes);
      if value[index] == PERCENT {
        if !Escaped(value, index) {
          return Err(InvalidPaxHeader);
        }
        bytes := bytes + [16 * HexValue(value[index + 1]).value + HexValue(value[index + 2]).value];
        index := index + 3;
      } else {
        if value[index] >= ASCII {
          return Err(InvalidPaxHeader);
        }
        bytes, index := bytes + [value[index]], index + 1;
      }
    }
    assert value[index..] == [] && bytes + [] == bytes;
    return if ValidUtf8(bytes) then Ok(bytes) else Err(InvalidPaxHeader);
  }

  lemma BehindNone(r: Result<Bytes>)
    ensures Behind([], r) == r
  {
    if r.Ok? {
      assert [] + r.value == r.value;
    }
  }

  function HexDigit(v: nat): (r: Byte)
    requires v < 16
    ensures HexValue(r) == Some(v) && r < ASCII
  {
    if v < 10 then 48 + v else 65 + (v - 10)
  }

  /** A text with every byte escaped but those in `plain`. */
  function UrlEncode(b: Bytes, plain: set<Byte>): Bytes {
    if b == [] then []
    else
      (if b[0] in plain then [b[0]] else [PERCENT, HexDigit(b[0] / 16), HexDigit(b[0] % 16)]) + UrlEncode(b[1..], plain)
  }

  predicate MayStandPlain(plain: set<Byte>) {
    PERCENT !in plain && forall b :: b in plain ==> b < ASCII
  }

  lemma {:induction false} UnescapedEncode(b: Bytes, plain: set<Byte>)
    requires MayStandPlain(plain)
    ensures Unescaped(UrlEncode(b, plain)) == Ok(b)
    ensures AllAscii(UrlEncode(b, plain)) && (b != [] ==> UrlEncode(b, plain) != [])
  {
    if b != [] {
      UnescapedEncode(b[1..], plain);
      var rest := UrlEncode(b[1..], plain);
      var text := UrlEncode(b, plain);
      if b[0] in plain {
        assert text == [b[0]] + rest && text[1..] == rest;
      } else {
        var front := [PERCENT, HexDigit(b[0] / 16), HexDigit(b[0] % 16)];
        assert text == front + rest && text[3..] == rest && Escaped(text, 0);
        assert text[1] == front[1] && text[2] == front[2];
      }
      assert [b[0]] + b[1..] == b;
    }
  }

  /** Decoding inverts every way of escaping a text. */
  lemma UrlRoundTrip(b: Bytes, plain: set<Byte>)
    requires MayStandPlain(plain) && ValidUtf8(b)
    ensures UrlDecode(UrlEncode(b, plain)) == Ok(b)
  {
    UnescapedEncode(b, plain);
  }

  // ---------------------------------------------------------------- attributes

  /** The attribute a record stands for; nothing when its key names none. */
  function Attribute(u: Library, key: Bytes, value: Bytes): Result<Option<(Bytes, Bytes)>> {
    if HasPrefix(u, key, SCHILY) then
      if key == SCHILY then Err(InvalidPaxHeader) else Ok(Some((key[|SCHILY|..], value)))
    else if HasPrefix(u, key, LIBARCHIVE) then
      var name :- UrlDecode(key[|LIBARCHIVE|..]);
      if name == [] || value !in u.base64 || !ValidUtf8(u.base64[value]) then Err(InvalidPaxHeader)
      else Ok(Some((name, u.base64[value])))
    else Ok(None)
  }

  /** A plain attribute is collected unless its name is empty or begins with a scalar that joins the dot. */
  lemma PlainAttributeExactly(u: Library, name: Bytes, value: Bytes)
    ensures Attribute(u, SCHILY + name, value) == Ok(Some((name, value))) <==> name != [] && !Extends(u, name)
  {
    var key := SCHILY + name;
    assert key[|SCHILY|..] == name && (key == SCHILY <==> name == []);
    assert key[0] == SCHILY[0] && !(LIBARCHIVE <= key);
  }

  /** An encoded attribute is collected under its own name and value, however its name was escaped. */
  lemma EncodedAttribute(u: Library, name: Bytes, plain: set<Byte>, text: Bytes)
    requires MayStandPlain(plain) && name != [] && ValidUtf8(name)
    requires text in u.base64 && ValidUtf8(u.base64[text])
    ensures Attribute(u, LIBARCHIVE + UrlEncode(name, plain), text) == Ok(Some((name, u.base64[text])))
  {
    var coded := UrlEncode(name, plain);
    var key := LIBARCHIVE + coded;
    assert key[|LIBARCHIVE|..] == coded && LIBARCHIVE <= key;
    assert key[0] == LIBARCHIVE[0] && !(SCHILY <= key);
    UnescapedEncode(name, plain);
    UrlRoundTrip(name, plain);
    hide Unescaped, UrlEncode, ValidUtf8;
    NothingExtends(u, coded);
  }
}
