/** Pax records: a printed record is read back exactly when Swift can tell its parts apart. */
module TarRecords {
  import opened HostTypes
  import opened SwiftText
  import opened TarNumbers
  import opened TarReader

  /** A pax record as it is printed; the digits give the length of the whole record. */
  datatype PaxText = PaxText(digits: Bytes, key: Bytes, value: Bytes)

  function Print(t: PaxText): Bytes {
    t.digits + [SPACE] + (t.key + [EQUALS] + (t.value + [NEWLINE]))
  }

  ghost predicate WellPrinted(t: PaxText) {
    t.digits != [] && DecimalDigits(t.digits) && DecimalValue(t.digits) == |Print(t)|
  }

  /**
   The record can be told apart into key and value: its blank and its equals sign are Characters of their
   own, no earlier equals sign is, and the newline does not join a carriage return.
   */
  ghost predicate Unambiguous(u: Library, t: PaxText) {
    && !Extends(u, t.key) && !Prepends(u, t.key) && !Extends(u, t.value)
    && (forall i :: 0 <= i < |t.key| && t.key[i] == EQUALS ==> !Lone(u, t.key, i))
    && (t.value != [] ==> t.value[|t.value| - 1] != RETURN)
  }

  lemma {:induction false} CountDigits(digits: Bytes, rest: Bytes)
    requires DecimalDigits(digits) && rest != [] && rest[0] == SPACE
    ensures DigitCount(digits + rest) == |digits|
  {
    if digits == [] {
      assert digits + rest == rest;
    } else {
      assert (digits + rest)[1..] == digits[1..] + rest;
      CountDigits(digits[1..], rest);
    }
  }

  lemma FrontAndRest(front: Bytes, rest: Bytes)
    ensures (front + rest)[..|front|] == front && (front + rest)[|front|..] == rest
  {
  }

  /** What follows the digits of a record, and what follows its equals sign. */
  function Behind(t: PaxText): Bytes {
    t.key + [EQUALS] + (t.value + [NEWLINE])
  }

  lemma DigitsOfRecord(t: PaxText, rest: Bytes)
    requires DecimalDigits(t.digits)
    ensures var b, n := Print(t) + rest, |t.digits|;
            DigitCount(b) == n && n < |b| && b[n] == SPACE && b[..n] == t.digits
  {
    var tail := [SPACE] + Behind(t) + rest;
    assert Print(t) + rest == t.digits + tail;
    CountDigits(t.digits, tail);
  }

  /** Where the parts of a record are. */
  lemma RecordParts(t: PaxText)
    ensures var r, n, k := Print(t), |t.digits|, |t.digits| + 1 + |t.key|;
            && |r| == k + |t.value| + 2 && r[n] == SPACE && r[k] == EQUALS && r[|r| - 1] == NEWLINE
            && r[..n] == t.digits && r[n + 1..k] == t.key && r[k + 1..|r| - 1] == t.value
            && r[n + 1..] == t.key + ([EQUALS] + (t.value + [NEWLINE]))
            && r[k + 1..] == t.value + [NEWLINE] && r[..k] == (t.digits + [SPACE]) + t.key
  {
  }

  lemma RecordSize(t: PaxText)
    ensures var r, n, k := Print(t), |t.digits|, |t.digits| + 1 + |t.key|;
            |r| == k + |t.value| + 2 && r[n] == SPACE && r[k] == EQUALS && r[|r| - 1] == NEWLINE
  {
  }

  /** The blank behind the digits stands alone exactly when the key does not begin with a joining scalar. */
  lemma SpaceAlone(u: Library, t: PaxText)
    requires DecimalDigits(t.digits)
    ensures |t.digits| < |Print(t)| && (Lone(u, Print(t), |t.digits|) <==> !Extends(u, t.key))
  {
    RecordParts(t);
    ExtendsFront(u, t.key, [EQUALS] + (t.value + [NEWLINE]));
    NothingPrepends(u, t.digits);
    hide Extends, Prepends;
  }

  lemma EqualsAlone(u: Library, t: PaxText)
    ensures var k := |t.digits| + 1 + |t.key|;
            k < |Print(t)| && (Lone(u, Print(t), k) <==> !Prepends(u, t.key) && !Extends(u, t.value))
  {
    RecordParts(t);
    ExtendsFront(u, t.value, [NEWLINE]);
    PrependsBack(u, t.digits + [SPACE], t.key);
    hide Extends, Prepends;
  }

  lemma InKey(u: Library, t: PaxText, i: nat)
    requires i < |t.key|
    ensures var k := |t.digits| + 1 + i;
            k < |Print(t)| && Print(t)[k] == t.key[i] && Lone(u, Print(t), k) == Lone(u, t.key, i)
  {
    var front, rest := t.digits + [SPACE], [EQUALS] + (t.value + [NEWLINE]);
    Regroup(t.digits, [SPACE], Behind(t));
    Regroup(t.key, [EQUALS], t.value + [NEWLINE]);
    Regroup(front, t.key, rest);
    LoneBetween(u, front, t.key, rest, i);
  }

  lemma FindFrom(u: Library, b: Bytes, c: Byte, i: nat, k: nat)
    requires i <= k <= |b| && (k < |b| ==> b[k] == c && Lone(u, b, k))
    requires forall j :: i <= j < k ==> !(b[j] == c && Lone(u, b, j))
    ensures FindLone(u, b, c, i) == k
  {
  }

  /** The blank Swift finds in a record is the one behind the digits or a later one. */
  lemma SpaceFound(u: Library, t: PaxText)
    requires DecimalDigits(t.digits)
    ensures FindLone(u, Print(t), SPACE, 0) >= |t.digits|
    ensures !Extends(u, t.key) ==> FindLone(u, Print(t), SPACE, 0) == |t.digits|
    ensures Extends(u, t.key) ==> FindLone(u, Print(t), SPACE, 0) != |t.digits|
  {
    RecordParts(t);
    SpaceAlone(u, t);
    var r, n := Print(t), |t.digits|;
    forall j | 0 <= j < n
      ensures r[j] != SPACE
    {
      assert r[j] == r[..n][j] == t.digits[j];
    }
    hide Print, Lone;
    if !Extends(u, t.key) {
      FindFrom(u, r, SPACE, 0, n);
    }
  }

  lemma EqualsFound(u: Library, t: PaxText)
    requires Unambiguous(u, t)
    ensures |t.digits| < |Print(t)| && FindLone(u, Print(t), EQUALS, |t.digits| + 1) == |t.digits| + 1 + |t.key|
  {
    hide Lone, Extends, Prepends, Print;
    RecordSize(t);
    EqualsAlone(u, t);
    var r, n := Print(t), |t.digits|;
    forall j | n + 1 <= j < n + 1 + |t.key| && r[j] == EQUALS
      ensures !Lone(u, r, j)
    {
      InKey(u, t, j - n - 1);
    }
    FindFrom(u, r, EQUALS, n + 1, n + 1 + |t.key|);
  }

  lemma LastAlone(t: PaxText)
    ensures |Print(t)| > 1 && (LastCharacter(Print(t)) == 1 <==> (t.value != [] ==> t.value[|t.value| - 1] != RETURN))
  {
    RecordParts(t);
    var r := Print(t);
    assert t.value != [] ==> r[|r| - 2] == t.value[|t.value| - 1];
    assert t.value == [] ==> r[|r| - 2] == EQUALS;
  }

  lemma ShorterSlice(b: Bytes, lo: nat, hi: nat)
    requires lo < hi <= |b|
    ensures b[lo..hi - 1] == b[lo..hi][..hi - 1 - lo]
  {
    var short, long := b[lo..hi - 1], b[lo..hi];
    assert forall i | 0 <= i < |short| :: short[i] == long[i];
  }

  /** What Swift makes of a record whose two delimiters it finds. */
  lemma PartsFound(u: Library, t: PaxText)
    requires FindLone(u, Print(t), SPACE, 0) == |t.digits|
    requires |t.digits| < |Print(t)| && FindLone(u, Print(t), EQUALS, |t.digits| + 1) == |t.digits| + 1 + |t.key|
    ensures ValidUtf8(Print(t)) && EndsLine(u, Print(t)) && LastCharacter(Print(t)) == 1 ==>
              RecordOf(u, Print(t)) == Ok(PaxRecord(|Print(t)|, t.key, t.value))
    ensures ValidUtf8(Print(t)) && EndsLine(u, Print(t)) && LastCharacter(Print(t)) == 2 && t.value != [] ==>
              RecordOf(u, Print(t)) == Ok(PaxRecord(|Print(t)|, t.key, t.value[..|t.value| - 1]))
    ensures !EndsLine(u, Print(t)) ==> RecordOf(u, Print(t)) == Err(InvalidPaxHeader)
  {
    hide FindLone, Lone, ValidUtf8, EndsLine, LastCharacter;
    RecordParts(t);
    var r, k := Print(t), |t.digits| + 1 + |t.key|;
    hide Print;
    if t.value != [] {
      ShorterSlice(r, k + 1, |r| - 1);
    }
  }

  /** A printed record is read back as it was printed exactly when it can be told apart. */
  lemma RecordReadBack(u: Library, t: PaxText)
    requires DecimalDigits(t.digits) && ValidUtf8(Print(t))
    ensures RecordOf(u, Print(t)) == Ok(PaxRecord(|Print(t)|, t.key, t.value)) <==> Unambiguous(u, t)
  {
    if Unambiguous(u, t) {
      Told(u, t);
    }
    if RecordOf(u, Print(t)) == Ok(PaxRecord(|Print(t)|, t.key, t.value)) {
      PartsTold(u, t);
    }
    hide RecordOf, Unambiguous, Print, ValidUtf8;
  }

  lemma Told(u: Library, t: PaxText)
    requires DecimalDigits(t.digits) && ValidUtf8(Print(t)) && Unambiguous(u, t)
    ensures RecordOf(u, Print(t)) == Ok(PaxRecord(|Print(t)|, t.key, t.value))
  {
    hide Lone, Extends, Prepends, ValidUtf8, RecordOf;
    SpaceFound(u, t);
    LastAlone(t);
    EqualsFound(u, t);
    LineEnds(u, t);
    hide Print, FindLone, LastCharacter, EndsLine;
    PartsFound(u, t);
  }

  lemma LineEnds(u: Library, t: PaxText)
    ensures EndsLine(u, Print(t)) <==> u.suffixByBytes || LastCharacter(Print(t)) == 1
  {
    RecordSize(t);
  }

  /** The parts of the record add up, so that Swift found the same two delimiters. */
  lemma PartsTold(u: Library, t: PaxText)
    requires DecimalDigits(t.digits) && RecordOf(u, Print(t)) == Ok(PaxRecord(|Print(t)|, t.key, t.value))
    ensures Unambiguous(u, t)
  {
    hide Lone, Extends, Prepends, Print, ValidUtf8;
    RecordSize(t);
    SpaceFound(u, t);
    LastAlone(t);
    var r, n := Print(t), |t.digits|;
    var space := FindLone(u, r, SPACE, 0);
    var equals := FindLone(u, r, EQUALS, space + 1);
    assert |t.key| == equals - (space + 1) && |t.value| == |r| - LastCharacter(r) - (equals + 1);
    assert space == n && LastCharacter(r) == 1 && equals == n + 1 + |t.key|;
    hide RecordOf, LastCharacter, FindLone;
    EqualsAlone(u, t);
    forall i | 0 <= i < |t.key| && t.key[i] == EQUALS
      ensures !Lone(u, t.key, i)
    {
      InKey(u, t, i);
    }
  }

  /** A value that ends in a carriage return, in a record without other ambiguities. */
  lemma ReturnAtEnd(u: Library, t: PaxText)
    requires DecimalDigits(t.digits) && ValidUtf8(Print(t)) && !Extends(u, t.key) && EQUALS !in t.key
    requires !Prepends(u, t.key) && !Extends(u, t.value) && t.value != [] && t.value[|t.value| - 1] == RETURN
    ensures RecordOf(u, Print(t)) == if u.suffixByBytes then Ok(PaxRecord(|Print(t)|, t.key, t.value[..|t.value| - 1]))
                                     else Err(InvalidPaxHeader)
  {
    hide Lone, Extends, Prepends, ValidUtf8, RecordOf;
    SpaceFound(u, t);
    PlainKey(u, t);
    LastAlone(t);
    LineEnds(u, t);
    assert LastCharacter(Print(t)) == 2;
    hide Print, FindLone, LastCharacter, EndsLine;
    PartsFound(u, t);
  }

  lemma PlainKey(u: Library, t: PaxText)
    requires EQUALS !in t.key && !Prepends(u, t.key) && !Extends(u, t.value)
    ensures |t.digits| < |Print(t)| && FindLone(u, Print(t), EQUALS, |t.digits| + 1) == |t.digits| + 1 + |t.key|
  {
    hide Lone, Extends, Prepends, Print;
    RecordSize(t);
    EqualsAlone(u, t);
    var r, n := Print(t), |t.digits|;
    forall j | n + 1 <= j < n + 1 + |t.key|
      ensures r[j] != EQUALS
    {
      InKey(u, t, j - n - 1);
    }
    FindFrom(u, r, EQUALS, n + 1, n + 1 + |t.key|);
  }

  /** A value that begins with a joining scalar hides the only equals sign of its record. */
  lemma EqualsHidden(u: Library, t: PaxText)
    requires DecimalDigits(t.digits) && !Extends(u, t.key) && EQUALS !in t.key && EQUALS !in t.value
    requires Extends(u, t.value)
    ensures RecordOf(u, Print(t)) == Err(InvalidPaxHeader)
  {
    hide Lone, Extends, Prepends, ValidUtf8;
    RecordParts(t);
    SpaceFound(u, t);
    EqualsAlone(u, t);
    var r, n, k := Print(t), |t.digits|, |t.digits| + 1 + |t.key|;
    hide Print;
    forall j | n + 1 <= j < |r| && j != k
      ensures r[j] != EQUALS
    {
      if j < k {
        assert r[j] == r[n + 1..k][j - n - 1] && r[n + 1..k][j - n - 1] in t.key;
      } else if j < |r| - 1 {
        assert r[j] == r[k + 1..|r| - 1][j - k - 1] && r[k + 1..|r| - 1][j - k - 1] in t.value;
      }
    }
    FindFrom(u, r, EQUALS, n + 1, |r|);
  }

  /** The same at the start of a payload, whatever follows. */
  lemma FirstReadBack(u: Library, t: PaxText, rest: Bytes, at: nat)
    requires WellPrinted(t) && ValidUtf8(Print(t)) && at + |Print(t)| <= INT_MAX
    ensures FirstRecord(u, Print(t) + rest, at) == Ok(PaxRecord(|Print(t)|, t.key, t.value)) <==> Unambiguous(u, t)
    ensures (Print(t) + rest)[|Print(t)|..] == rest
  {
    hide Lone, Extends, Prepends, ValidUtf8, RecordOf, DigitCount, Unambiguous;
    DigitsOfRecord(t, rest);
    FrontAndRest(Print(t), rest);
    RecordReadBack(u, t);
    RecordSize(t);
    hide Print;
  }

  /** "11" in front of `path` and a two-byte value. */
  function PathRecord(value: Bytes): PaxText {
    PaxText([49, 49], PATH, value)
  }

  lemma Eleven()
    ensures DecimalDigits([49, 49]) && DecimalValue([49, 49]) == 11
  {
    var b: Bytes := [49, 49];
    assert b[..1] == [49] && b[..1][..0] == [];
    assert DecimalValue(b[..1][..0]) == 0;
    assert DecimalValue(b[..1]) == 1;
  }

  lemma PathRecordSize(u: Library, value: Bytes)
    requires |value| == 2
    ensures WellPrinted(PathRecord(value)) && |Print(PathRecord(value))| == 11
    ensures EQUALS !in PATH && !Extends(u, PATH) && !Prepends(u, PATH)
    ensures FirstRecord(u, Print(PathRecord(value)), 0) == RecordOf(u, Print(PathRecord(value)))
  {
    var t := PathRecord(value);
    RecordSize(t);
    Eleven();
    DigitsOfRecord(t, []);
    assert Print(t) + [] == Print(t) && Print(t)[..11] == Print(t);
    NothingExtends(u, PATH);
    NothingPrepends(u, PATH);
    hide Print, RecordOf, DigitCount, Extends, Prepends;
  }

  lemma PathRecordAscii(value: Bytes)
    requires AllAscii(value)
    ensures AllAscii(Print(PathRecord(value)))
  {
    RecordParts(PathRecord(value));
  }

  /** Concrete failure: carriage return and newline are one Character, and the value loses its end or is refused. */
  lemma CarriageReturnLost(u: Library)
    ensures WellPrinted(PathRecord([97, RETURN]))
    ensures FirstRecord(u, Print(PathRecord([97, RETURN])), 0)
         == if u.suffixByBytes then Ok(PaxRecord(11, PATH, [97])) else Err(InvalidPaxHeader)
  {
    var t := PathRecord([97, RETURN]);
    hide FirstRecord, RecordOf, ValidUtf8, Extends, Prepends, Print, WellPrinted;
    PathRecordSize(u, [97, RETURN]);
    PathRecordAscii([97, RETURN]);
    AsciiValid(Print(t));
    NothingExtends(u, t.value);
    assert t.value[..1] == [97];
    ReturnAtEnd(u, t);
  }

  /** Concrete failure: U+0301 at the start of a value joins the equals sign, and the record is refused. */
  lemma AccentHidesEquals(u: Library)
    requires [0xcc, 0x81] in u.extenders
    ensures WellPrinted(PathRecord([0xcc, 0x81]))
    ensures FirstRecord(u, Print(PathRecord([0xcc, 0x81])), 0) == Err(InvalidPaxHeader)
  {
    PathRecordSize(u, [0xcc, 0x81]);
    assert [0xcc, 0x81] <= PathRecord([0xcc, 0x81]).value && Extends(u, PathRecord([0xcc, 0x81]).value);
    hide FirstRecord, RecordOf, Print, ValidUtf8, Extends, Prepends;
    EqualsHidden(u, PathRecord([0xcc, 0x81]));
  }

  function PrintAll(ts: seq<PaxText>): Bytes {
    if ts == [] then [] else Print(ts[0]) + PrintAll(ts[1..])
  }

  function ApplyAll(u: Library, e: Extended, ts: seq<PaxText>): Result<Extended>
    decreases |ts|
  {
    if ts == [] then Ok(e)
    else
      var next :- Apply(u, e, ts[0].key, ts[0].value);
      ApplyAll(u, next, ts[1..])
  }

  ghost predicate AllTold(u: Library, ts: seq<PaxText>) {
    forall i :: 0 <= i < |ts| ==> WellPrinted(ts[i]) && ValidUtf8(Print(ts[i])) && Unambiguous(u, ts[i])
  }

  /** A printed extended header means its keys and values, applied in order. */
  lemma {:induction false} PaxReadBack(u: Library, e: Extended, ts: seq<PaxText>, at: nat)
    requires AllTold(u, ts) && at + |PrintAll(ts)| <= INT_MAX
    ensures Pax(u, e, PrintAll(ts), at) == ApplyAll(u, e, ts)
    decreases |ts|
  {
    hide FirstRecord, Apply, Print, Unambiguous, ValidUtf8;
    if ts != [] {
      assert WellPrinted(ts[0]) && ValidUtf8(Print(ts[0])) && Unambiguous(u, ts[0]);
      FirstReadBack(u, ts[0], PrintAll(ts[1..]), at);
      assert |Print(ts[0])| > 0 by {
        RecordParts(ts[0]);
      }
      var next := Apply(u, e, ts[0].key, ts[0].value);
      if next.Ok? {
        PaxReadBack(u, next.value, ts[1..], at + |Print(ts[0])|);
      }
    }
  }
}
