/** Numeric fields and checksums of tar headers (Session/OrlixRootfsImport.swift). */
module TarNumbers {
  import opened HostTypes
  import opened Arithmetic
  import opened SwiftText

  /** What the reader throws; `Trap` is a Swift conversion or addition that stops the process. */
  datatype Failure =
    | TruncatedHeader
    | TruncatedPayload
    | InvalidString
    | InvalidOctal
    | InvalidChecksum
    | UnsupportedEntryType
    | UnsafePath
    | UnsafeLinkName
    | InvalidPaxHeader
    | InvalidLongName
    | InvalidNumericField
    | Trap

  datatype Result<+T> = Ok(value: T) | Err(failure: Failure) {
    predicate IsFailure() {
      Err?
    }

    function PropagateFailure<U>(): Result<U>
      requires IsFailure()
    {
      Err(failure)
    }

    function Extract(): T
      requires !IsFailure()
    {
      value
    }
  }

  const U64: nat := ADDRESS_SPACE

  // ---------------------------------------------------------------- octal

  /** The bytes up to the first NUL. */
  function CField(b: Bytes): (r: Bytes)
    ensures |r| <= |b| && r == b[..|r|]
  {
    if b == [] || b[0] == 0 then [] else [b[0]] + CField(b[1..])
  }

  function TrimFront(b: Bytes): (r: Bytes)
    ensures |r| <= |b|
  {
    if b != [] && b[0] == SPACE then TrimFront(b[1..]) else b
  }

  function TrimBack(b: Bytes): (r: Bytes)
    ensures |r| <= |b|
  {
    if b != [] && b[|b| - 1] == SPACE then TrimBack(b[..|b| - 1]) else b
  }

  predicate OctalDigits(b: Bytes) {
    forall i :: 0 <= i < |b| ==> ZERO <= b[i] < ZERO + 8
  }

  function OctalValue(b: Bytes): nat
    requires OctalDigits(b)
  {
    if b == [] then 0 else 8 * OctalValue(b[..|b| - 1]) + (b[|b| - 1] - ZERO)
  }

  /** What `parseOctal` is to return. The value of a field of at most twelve bytes is below 2^36. */
  function ParseOctal(field: Bytes): (r: Result<nat>)
    ensures r.Ok? && |field| <= 12 ==> r.value < 0x10_0000_0000
  {
    var digits := TrimBack(TrimFront(CField(field)));
    if !ValidUtf8(CField(field)) then Err(InvalidString)
    else if OctalDigits(digits) then
      if |digits| <= 12 then
        OctalBound(digits);
        Ok(OctalValue(digits))
      else Ok(OctalValue(digits))
    else Err(InvalidOctal)
  }

  /** The loop of `parseOctal` on the fields of a header, which are too short for the 64-bit result to overflow. */
  method ReadOctal(field: Bytes) returns (r: Result<nat>)
    requires |field| <= 12
    ensures r == ParseOctal(field)
    ensures r.Ok? ==> r.value < U64
  {
    var text := CField(field);
    if !ValidUtf8(text) {
      return Err(InvalidString);
    }
    var value := TrimBack(TrimFront(text));
    var result := 0;
    for index := 0 to |value|
      invariant OctalDigits(value[..index]) && result == OctalValue(value[..index])
    {
      var character := value[index];
      if character < ZERO || character >= ZERO + 8 {
        assert !OctalDigits(value);
        return Err(InvalidOctal);
      }
      assert value[..index + 1][..index] == value[..index];
      assert OctalValue(value[..index + 1]) == result * 8 + (character - ZERO);
      OctalBound(value[..index + 1]);
      assert result * 8 + (character - ZERO) < U64;
      result := result * 8 + (character - ZERO);
    }
    assert value[..|value|] == value;
    return Ok(result);
  }

  lemma {:induction false} OctalBound(b: Bytes)
    requires OctalDigits(b) && |b| <= 12
    ensures OctalValue(b) < 0x10_0000_0000
  {
    OctalPower(b);
    assert Power8(12) == 0x10_0000_0000;
    PowerGrows(|b|, 12);
  }

  function Power8(k: nat): nat {
    if k == 0 then 1 else 8 * Power8(k - 1)
  }

  lemma {:induction false} PowerGrows(j: nat, k: nat)
    requires j <= k
    ensures Power8(j) <= Power8(k)
    decreases k - j
  {
    if j < k {
      PowerGrows(j + 1, k);
    }
  }

  lemma {:induction false} OctalPower(b: Bytes)
    requires OctalDigits(b)
    ensures OctalValue(b) < Power8(|b|)
  {
    if b != [] {
      OctalPower(b[..|b| - 1]);
    }
  }

  /** Octal digits of a number, leading zeros included. */
  function OctalText(v: nat, width: nat): (r: Bytes)
    ensures |r| == width && OctalDigits(r)
  {
    if width == 0 then [] else OctalText(v / 8, width - 1) + [ZERO + v % 8]
  }

  lemma {:induction false} OctalTextValue(v: nat, width: nat)
    requires v < Power8(width)
    ensures OctalValue(OctalText(v, width)) == v
  {
    if width > 0 {
      OctalTextValue(v / 8, width - 1);
      assert OctalText(v, width)[..width - 1] == OctalText(v / 8, width - 1);
    }
  }

  lemma {:induction false} CFieldOf(digits: Bytes, rest: Bytes)
    requires OctalDigits(digits) && (rest == [] || rest[0] == 0)
    ensures CField(digits + rest) == digits
  {
    if digits != [] {
      assert (digits + rest)[1..] == digits[1..] + rest;
      CFieldOf(digits[1..], rest);
    } else {
      assert digits + rest == rest;
    }
  }

  /** A printed octal field is read back. */
  lemma OctalRoundTrip(v: nat, width: nat, rest: Bytes)
    requires v < Power8(width) && (rest == [] || rest[0] == 0)
    ensures ParseOctal(OctalText(v, width) + rest) == Ok(v)
  {
    CFieldOf(OctalText(v, width), rest);
    AsciiValid(OctalText(v, width));
    OctalTextValue(v, width);
  }

  // ---------------------------------------------------------------- base 256

  function BigEndian(b: Bytes): nat {
    if b == [] then 0 else 0x100 * BigEndian(b[..|b| - 1]) + b[|b| - 1]
  }

  /** The value of a base-256 field, whose first bit is only a mark. */
  function Base256(field: Bytes): nat
    requires field != []
  {
    BigEndian(field[0 := field[0] % 0x80])
  }

  /** What `parseNumeric` is to return: the value of the field, unless it does not fit 64 bits. */
  function Numeric(field: Bytes): (r: Result<nat>)
    requires field != []
    ensures r.Ok? && |field| <= 12 ==> r.value < U64
  {
    if field[0] < 0x80 then ParseOctal(field)
    else if Base256(field) < U64 then Ok(Base256(field))
    else Err(InvalidNumericField)
  }

  lemma {:induction false} BigEndianGrows(b: Bytes, i: nat)
    requires i <= |b|
    ensures BigEndian(b[..i]) <= BigEndian(b)
    decreases |b|
  {
    if i < |b| {
      BigEndianGrows(b[..|b| - 1], i);
      assert b[..|b| - 1][..i] == b[..i];
    } else {
      assert b[..i] == b;
    }
  }

  /** `parseNumeric`: base-256 parsing is exact, and fails if and only if the value exceeds 2^64 - 1. */
  method ParseNumeric(field: Bytes) returns (r: Result<nat>)
    requires 0 < |field| <= 12
    ensures r == Numeric(field)
  {
    if field[0] < 0x80 {
      r := ReadOctal(field);
      return;
    }
    ghost var all: Bytes := field[0 := field[0] % 0x80];
    var result := 0;
    for index := 0 to |field|
      invariant result == BigEndian(all[..index]) < U64
    {
      var byte := if index == 0 then field[index] % 0x80 else field[index];
      assert all[..index + 1][..index] == all[..index] && all[..index + 1][index] == byte;
      if result > (U64 - 1 - byte) / 0x100 {
        BigEndianGrows(all, index + 1);
        return Err(InvalidNumericField);
      }
      result := result * 0x100 + byte;
    }
    assert all[..|field|] == all;
    return Ok(result);
  }

  function Base256Text(v: nat, width: nat): (r: Bytes)
    ensures |r| == width
  {
    if width == 0 then [] else Base256Text(v / 0x100, width - 1) + [v % 0x100]
  }

  function Power256(k: nat): nat {
    if k == 0 then 1 else 0x100 * Power256(k - 1)
  }

  lemma {:induction false} Base256TextValue(v: nat, width: nat)
    requires v < Power256(width)
    ensures BigEndian(Base256Text(v, width)) == v
  {
    if width > 0 {
      Base256TextValue(v / 0x100, width - 1);
      assert Base256Text(v, width)[..width - 1] == Base256Text(v / 0x100, width - 1);
    }
  }

  lemma {:induction false} Base256First(v: nat, width: nat)
    requires width > 0 && v < Power256(width - 1)
    ensures Base256Text(v, width)[0] == 0
    decreases width
  {
    if width > 1 {
      Base256First(v / 0x100, width - 1);
    }
  }

  /** A number printed in base 256, with the mark in a byte of its own, is read back. */
  lemma Base256RoundTrip(v: nat, width: nat)
    requires width > 0 && v < Power256(width - 1) && v < U64
    ensures var field := Base256Text(v, width)[0 := 0x80]; Numeric(field) == Ok(v)
  {
    var text := Base256Text(v, width);
    Base256First(v, width);
    assert v < Power256(width);
    Base256TextValue(v, width);
    assert text[0 := 0x80][0 := 0] == text;
  }

  // ---------------------------------------------------------------- checksum

  const CHECKSUM_START: nat := 148
  const CHECKSUM_END: nat := 156

  /** Sum of the header bytes from `i` on, with the checksum field read as blanks. */
  function SumFrom(header: Bytes, i: nat): nat
    requires i <= |header|
    decreases |header| - i
  {
    if i == |header| then 0
    else (if CHECKSUM_START <= i < CHECKSUM_END then SPACE else header[i]) + SumFrom(header, i + 1)
  }

  /** `validateChecksum`. */
  method ValidateChecksum(header: Bytes) returns (r: Result<()>)
    requires |header| == 512
    ensures r == Checksum(header)
  {
    var expected := ReadOctal(header[CHECKSUM_START..CHECKSUM_END]);
    if expected.Err? {
      return Err(expected.failure);
    }
    var actual := 0;
    for index := 0 to 512
      invariant actual + SumFrom(header, index) == SumFrom(header, 0)
    {
      actual := actual + if CHECKSUM_START <= index < CHECKSUM_END then SPACE else header[index];
    }
    return if expected.value == actual then Ok(()) else Err(InvalidChecksum);
  }

  function Checksum(header: Bytes): Result<()>
    requires |header| == 512
  {
    var expected :- ParseOctal(header[CHECKSUM_START..CHECKSUM_END]);
    if expected == SumFrom(header, 0) then Ok(()) else Err(InvalidChecksum)
  }
}
