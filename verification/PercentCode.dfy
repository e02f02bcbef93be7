/** Percent-encoding of kernel command-line values: the encoder of OrlixOS and the in-place decoder of init. */
module PercentCode {
  import opened HostTypes

  type Text = seq<char>

  const NUL: char := '\0'

  /** UTF-8 bytes as characters. */
  predicate IsBytes(t: Text) {
    forall i :: 0 <= i < |t| ==> t[i] as int < 256
  }

  // ---------------------------------------------------------------- encoder

  /** `isKernelCommandLineTokenByte`. */
  predicate TokenByte(c: char) {
    'A' <= c <= 'Z' || 'a' <= c <= 'z' || '0' <= c <= '9' || c in {'/', '.', '_', '-', ':', '=', ',', '+', '@'}
  }

  function HexDigit(n: nat): char
    requires n < 16
  {
    if n < 10 then (48 + n) as char else (55 + n) as char
  }

  function EncodedByte(c: char): Text
    requires c as int < 256
  {
    if TokenByte(c) then [c] else ['%', HexDigit(c as int / 16), HexDigit(c as int % 16)]
  }

  /** `percentEncoded`. */
  function Encode(t: Text): Text
    requires IsBytes(t)
  {
    if t == [] then [] else EncodedByte(t[0]) + Encode(t[1..])
  }

  lemma EncodeNext(t: Text, i: nat, front: Text)
    requires IsBytes(t) && i < |t|
    ensures front + Encode(t[i..]) == (front + EncodedByte(t[i])) + Encode(t[i + 1..])
  {
    assert t[i..][0] == t[i] && t[i..][1..] == t[i + 1..];
  }

  method PercentEncoded(value: Text) returns (encoded: Text)
    requires IsBytes(value)
    ensures encoded == Encode(value)
  {
    encoded := "";
    assert value[0..] == value && encoded + Encode(value) == Encode(value) && Encode(value[|value|..]) == [];
    hide Encode;
    for i := 0 to |value|
      invariant encoded + Encode(value[i..]) == Encode(value)
    {
      EncodeNext(value, i, encoded);
      if TokenByte(value[i]) {
        encoded := encoded + [value[i]];
      } else {
        encoded := encoded + ['%', HexDigit(value[i] as int / 16), HexDigit(value[i] as int % 16)];
      }
    }
  }

  /** What may stand in a token without ending it. */
  predicate Clean(t: Text) {
    forall i :: 0 <= i < |t| ==> TokenByte(t[i]) || t[i] == '%'
  }

  lemma {:induction false} EncodeClean(t: Text)
    requires IsBytes(t)
    ensures Clean(Encode(t)) && |t| <= |Encode(t)| <= 3 * |t|
  {
    if t != [] {
      EncodeClean(t[1..]);
    }
  }

  // ---------------------------------------------------------------- decoder

  /** `hex_value`: the value of a digit, or a negative number. */
  function HexValue(c: char): int {
    if '0' <= c <= '9' then c as int - 48
    else if 'a' <= c <= 'f' then c as int - 87
    else if 'A' <= c <= 'F' then c as int - 55
    else -1
  }

  /** The text a value stands for, unless a percent sign in it is not followed by two digits. */
  function Decode(t: Text): Option<Text> {
    if t == [] then Some([])
    else if t[0] == '%' then
      if |t| < 3 || HexValue(t[1]) < 0 || HexValue(t[2]) < 0 then None
      else match Decode(t[3..])
        case None => None
        case Some(rest) => Some([(16 * HexValue(t[1]) + HexValue(t[2])) as char] + rest)
    else match Decode(t[1..])
      case None => None
      case Some(rest) => Some([t[0]] + rest)
  }

  /** The decoder undoes the encoder. */
  lemma {:induction false} DecodeEncode(t: Text)
    requires IsBytes(t)
    ensures Decode(Encode(t)) == Some(t)
  {
    if t != [] {
      DecodeEncode(t[1..]);
      var first, rest := EncodedByte(t[0]), Encode(t[1..]);
      assert (first + rest)[|first|..] == rest;
      assert [t[0]] + t[1..] == t;
      if !TokenByte(t[0]) {
        HexOfDigit(t[0] as int / 16);
        HexOfDigit(t[0] as int % 16);
      } else {
        assert t[0] != '%';
      }
    }
  }

  lemma HexOfDigit(n: nat)
    requires n < 16
    ensures HexValue(HexDigit(n)) == n
  {
  }

  function Prefixed(front: Text, r: Option<Text>): Option<Text> {
    match r
    case None => None
    case Some(rest) => Some(front + rest)
  }

  lemma DecodeStart(t: Text)
    ensures Prefixed([], Decode(t[0..])) == Decode(t)
  {
    assert t[0..] == t;
    if Decode(t).Some? {
      assert [] + Decode(t).value == Decode(t).value;
    }
  }

  lemma PrefixedTwice(front: Text, more: Text, r: Option<Text>)
    ensures Prefixed(front, Prefixed(more, r)) == Prefixed(front + more, r)
  {
    if r.Some? {
      assert front + (more + r.value) == (front + more) + r.value;
    }
  }

  lemma DecodeEnd(t: Text)
    requires t == []
    ensures Decode(t) == Some([])
  {
  }

  /** What is decoded so far and what the rest decodes to, one step on. */
  lemma DecodeNext(t: Text, read: nat, front: Text)
    requires read < |t|
    ensures t[read] != '%' ==> Prefixed(front, Decode(t[read..])) == Prefixed(front + [t[read]], Decode(t[read + 1..]))
    ensures t[read] == '%' && (read + 3 > |t| || HexValue(t[read + 1]) < 0 || HexValue(t[read + 2]) < 0) ==>
              Decode(t[read..]) == None
    ensures t[read] == '%' && read + 3 <= |t| && HexValue(t[read + 1]) >= 0 && HexValue(t[read + 2]) >= 0 ==>
              Prefixed(front, Decode(t[read..]))
              == Prefixed(front + [(16 * HexValue(t[read + 1]) + HexValue(t[read + 2])) as char], Decode(t[read + 3..]))
  {
    var s := t[read..];
    assert s[1..] == t[read + 1..];
    PrefixedTwice(front, [t[read]], Decode(t[read + 1..]));
    if |s| >= 3 {
      assert s[3..] == t[read + 3..] && s[1] == t[read + 1] && s[2] == t[read + 2];
      if HexValue(s[1]) >= 0 && HexValue(s[2]) >= 0 {
        PrefixedTwice(front, [(16 * HexValue(s[1]) + HexValue(s[2])) as char], Decode(t[read + 3..]));
      }
    }
  }

  /** Position of the terminator of the C string in a buffer. */
  ghost predicate EndsAt(value: seq<char>, n: nat) {
    n < |value| && value[n] == NUL && forall i :: 0 <= i < n ==> value[i] != NUL
  }

  lemma {:induction false} DecodeAppend(a: Text, b: Text)
    requires Decode(a).Some?
    ensures Decode(a + b) == Prefixed(Decode(a).value, Decode(b))
    decreases |a|
  {
    if a == [] {
      assert a + b == b;
      DecodeStart(b);
    } else {
      var k := if a[0] == '%' then 3 else 1;
      assert (a + b)[k..] == a[k..] + b;
      DecodeAppend(a[k..], b);
      PrefixedTwice(Decode(a).value[..1], Decode(a[k..]).value, Decode(b));
    }
  }

  /** The text ends in a percent sign that begins an escape. */
  predicate EndsInEscape(t: Text) {
    t != [] && t[|t| - 1] == '%' && Decode(t[..|t| - 1]).Some?
  }

  /** No escape of `t` begins at `read`, which is where a token begins. */
  predicate Malformed(t: Text, read: nat)
    requires read < |t|
  {
    t[read] == '%' && (read + 3 > |t| || HexValue(t[read + 1]) < 0 || HexValue(t[read + 2]) < 0)
  }

  /** A malformed escape is the last character of the text exactly when the text ends in an escape. */
  lemma EscapeAtEnd(t: Text, read: nat)
    requires read < |t| && Decode(t[..read]).Some? && Malformed(t, read)
    ensures EndsInEscape(t) <==> read == |t| - 1
  {
    var front, rest := t[..read], t[read..|t| - 1];
    assert t[..|t| - 1] == front + rest;
    DecodeAppend(front, rest);
    if read < |t| - 1 && t[|t| - 1] == '%' {
      assert rest[0] == '%';
      assert Decode(rest) == None;
    }
  }

  lemma NoEscapeAtEnd(t: Text)
    requires Decode(t).Some?
    ensures !EndsInEscape(t)
  {
    if EndsInEscape(t) {
      assert t == t[..|t| - 1] + ['%'];
      DecodeAppend(t[..|t| - 1], ['%']);
    }
  }

  /** Decoding what the encoder printed never looks past the buffer. */
  lemma EncodedStaysInside(t: Text)
    requires IsBytes(t)
    ensures !EndsInEscape(Encode(t))
  {
    DecodeEncode(t);
    NoEscapeAtEnd(Encode(t));
  }

  lemma TokenTaken(t: Text, read: nat)
    requires read < |t| && Decode(t[..read]).Some? && !Malformed(t, read)
    ensures var k := if t[read] == '%' then 3 else 1; read + k <= |t| && Decode(t[..read + k]).Some?
  {
    var k := if t[read] == '%' then 3 else 1;
    var token := t[read..read + k];
    assert t[..read + k] == t[..read] + token;
    DecodeAppend(t[..read], token);
    assert token[k..] == [];
    DecodeEnd(token[k..]);
  }

  /** Concrete failure: a plain text and a percent sign that fill the buffer, whatever its size. */
  lemma FullBufferReadsPast(t: Text)
    requires '%' !in t && NUL !in t
    ensures var buffer := t + ['%', NUL];
            EndsAt(buffer, |t| + 1) && |t| + 2 == |buffer| && EndsInEscape(buffer[..|t| + 1])
  {
    var buffer := t + ['%', NUL];
    PlainDecodes(t);
    assert buffer[..|t| + 1] == t + ['%'] && (t + ['%'])[..|t|] == t;
  }

  lemma {:induction false} PlainDecodes(t: Text)
    requires '%' !in t
    ensures Decode(t).Some?
  {
    if t != [] {
      PlainDecodes(t[1..]);
    }
  }

  /** The buffer still holds the text from `read` on. */
  ghost predicate Unread(value: seq<char>, t: Text, read: nat) {
    |t| < |value| && value[|t|] == NUL && forall i :: read <= i < |t| ==> value[i] == t[i]
  }

  /**
   One token of the text: what it stands for and where the next one begins, or nothing when it is
   malformed. The second digit of an escape is looked at even behind the terminator.
   */
  method ReadToken(value: array<char>, ghost t: Text, read: nat, ghost front: Text, beyond: char)
    returns (c: Option<char>, next: nat, past: bool)
    requires read < |t| && Unread(value[..], t, read) && NUL !in t
    requires Decode(t) == Prefixed(front, Decode(t[read..])) && Decode(t[..read]).Some?
    ensures c == None ==> Decode(t) == None
    ensures c == None ==> (past <==> |t| + 1 == value.Length && EndsInEscape(t))
    ensures c.Some? ==> !past && read < next <= |t| && Decode(t[..next]).Some?
    ensures c.Some? ==> Decode(t) == Prefixed(front + [c.value], Decode(t[next..]))
  {
    hide Decode, EndsInEscape;
    DecodeNext(t, read, front);
    assert value[..][read] == t[read];
    past := false;
    if value[read] == '%' {
      var high := HexValue(value[read + 1]);
      past := read + 2 == value.Length;
      var low := HexValue(if past then beyond else value[read + 2]);
      if high < 0 || low < 0 {
        EscapeBroken(value[..], t, read, high < 0, past);
        EscapeAtEnd(t, read);
        return None, read, past;
      }
      EscapeWhole(value[..], t, read);
      TokenTaken(t, read);
      return Some((16 * high + low) as char), read + 3, past;
    }
    TokenTaken(t, read);
    return Some(value[read]), read + 1, past;
  }

  /** A digit that is missing in the buffer is missing in the text. */
  lemma EscapeBroken(value: seq<char>, t: Text, read: nat, first: bool, past: bool)
    requires read < |t| && Unread(value, t, read) && t[read] == '%' && (past <==> read + 2 == |value|)
    requires first <==> HexValue(value[read + 1]) < 0
    requires first || past || HexValue(value[read + 2]) < 0
    ensures Malformed(t, read) && (past <==> |t| + 1 == |value| && read == |t| - 1)
  {
    assert HexValue(NUL) < 0;
  }

  lemma EscapeWhole(value: seq<char>, t: Text, read: nat)
    requires read < |t| && Unread(value, t, read) && t[read] == '%' && HexValue(value[read + 1]) >= 0
    requires read + 2 < |value| ==> HexValue(value[read + 2]) >= 0
    ensures read + 3 <= |t| && t[read + 1] == value[read + 1] && t[read + 2] == value[read + 2] && !Malformed(t, read)
  {
    assert HexValue(NUL) < 0;
  }

  method Store(value: array<char>, write: nat, c: char)
    requires write < value.Length
    modifies value
    ensures value[..write + 1] == old(value[..write]) + [c]
    ensures forall i :: write < i < value.Length ==> value[i] == old(value[i])
  {
    value[write] := c;
  }

  /**
   `percent_decode`: the string in the buffer is replaced by the text it stands for. The write position
   never passes the read position. The second digit of an escape is looked at even behind the terminator:
   `beyond` is the byte after the buffer, and it is read exactly when the text fills the buffer and ends in
   a percent sign that begins an escape. What it is does not matter.
   */
  method PercentDecode(value: array<char>, ghost n: nat, beyond: char) returns (ok: bool, past: bool)
    requires EndsAt(value[..], n)
    modifies value
    ensures ok == Decode(old(value[..n])).Some?
    ensures ok ==> var d := Decode(old(value[..n])).value; |d| <= n && value[..|d|] == d && value[|d|] == NUL
    ensures past <==> n + 1 == value.Length && EndsInEscape(old(value[..n]))
  {
    ghost var t := value[..n];
    var read, write := 0, 0;
    DecodeStart(t);
    DecodeEnd(t[..0]);
    hide Decode, EndsInEscape;
    past := false;
    while value[read] != NUL
      invariant 0 <= write <= read <= n < value.Length && !past && Unread(value[..], t, read)
      invariant Decode(t) == Prefixed(value[..write], Decode(t[read..])) && Decode(t[..read]).Some?
      decreases n - read
    {
      ghost var front := value[..write];
      var c, next;
      c, next, past := ReadToken(value, t, read, front, beyond);
      if c == None {
        return false, past;
      }
      Store(value, write, c.value);
      write := write + 1;
      read := next;
    }
    DecodeEnd(t[read..]);
    NoEscapeAtEnd(t);
    value[write] := NUL;
    ok := true;
  }
}
