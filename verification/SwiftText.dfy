/**
 Swift strings on their UTF-8 bytes, as far as the importer depends on them. Swift splits and searches
 strings by Characters, so that a delimiter counts only when no other scalar has joined it.
 */
module SwiftText {
  import opened HostTypes

  type Bytes = seq<Byte>

  const ASCII: nat := 0x80
  const SPACE: Byte := 32
  const COMMA: Byte := 44
  const DOT: Byte := 46
  const SLASH: Byte := 47
  const ZERO: Byte := 48
  const EQUALS: Byte := 61
  const NEWLINE: Byte := 10
  const RETURN: Byte := 13

  // ---------------------------------------------------------------- UTF-8

  predicate Continuation(b: Bytes, i: nat, low: nat, high: nat) {
    i < |b| && low <= b[i] <= high
  }

  /** Length of the well-formed scalar at the start of the bytes, or 0. */
  function ScalarLength(b: Bytes): (n: nat)
    ensures n <= |b|
  {
    if b == [] then 0
    else if b[0] < ASCII then 1
    else if 0xc2 <= b[0] <= 0xdf then (if Continuation(b, 1, 0x80, 0xbf) then 2 else 0)
    else if 0xe0 <= b[0] <= 0xef then
      var low, high := if b[0] == 0xe0 then 0xa0 else 0x80, if b[0] == 0xed then 0x9f else 0xbf;
      if Continuation(b, 1, low, high) && Continuation(b, 2, 0x80, 0xbf) then 3 else 0
    else if 0xf0 <= b[0] <= 0xf4 then
      var low, high := if b[0] == 0xf0 then 0x90 else 0x80, if b[0] == 0xf4 then 0x8f else 0xbf;
      if Continuation(b, 1, low, high) && Continuation(b, 2, 0x80, 0xbf) && Continuation(b, 3, 0x80, 0xbf) then 4 else 0
    else 0
  }

  /** `String(data:encoding:)` has a value. */
  predicate ValidUtf8(b: Bytes)
    decreases |b|
  {
    b == [] || (ScalarLength(b) > 0 && ValidUtf8(b[ScalarLength(b)..]))
  }

  predicate AllAscii(b: Bytes) {
    forall i :: 0 <= i < |b| ==> b[i] < ASCII
  }

  lemma {:induction false} AsciiValid(b: Bytes)
    requires AllAscii(b)
    ensures ValidUtf8(b)
  {
    if b != [] {
      AsciiValid(b[1..]);
    }
  }

  // ---------------------------------------------------------------- Characters

  /**
   The Unicode data of the library, as UTF-8: scalars that join the Character before them (combining
   marks, joiners), and scalars that join the one behind them (prepended marks); and whether `hasSuffix`
   compares bytes, which the library may do for some strings. `base64` is what the texts that are in
   base 64, once padded, stand for.
   */
  datatype Unicode = Unicode(extenders: seq<Bytes>, prepends: seq<Bytes>, suffixByBytes: bool,
                             base64: map<Bytes, Bytes>)

  predicate NoAscii(e: Bytes) {
    e != [] && forall i :: 0 <= i < |e| ==> e[i] >= ASCII
  }

  /** No ASCII scalar but carriage return joins another one. */
  type Library = u: Unicode |
    && (forall e :: e in u.extenders ==> NoAscii(e))
    && (forall e :: e in u.prepends ==> NoAscii(e))
    witness Unicode([], [], false, map[])

  /** Every byte is a Character of its own. */
  const PLAIN: Library := Unicode([], [], false, map[])

  predicate IsSuffix(e: Bytes, b: Bytes) {
    |e| <= |b| && b[|b| - |e|..] == e
  }

  /** The bytes begin with a scalar that joins what is in front of it. */
  predicate Extends(u: Library, b: Bytes) {
    exists e :: e in u.extenders && e <= b
  }

  /** The bytes end in a scalar that joins what is behind it. */
  predicate Prepends(u: Library, b: Bytes) {
    exists e :: e in u.prepends && IsSuffix(e, b)
  }

  /** The ASCII byte at `i` is a Character of its own. */
  predicate Lone(u: Library, b: Bytes, i: nat)
    requires i < |b|
  {
    !Prepends(u, b[..i]) && !Extends(u, b[i + 1..])
  }

  /** The first Character `c` from `i` on. */
  function FindLone(u: Library, b: Bytes, c: Byte, i: nat): (k: nat)
    requires i <= |b|
    ensures i <= k <= |b| && (k < |b| ==> b[k] == c && Lone(u, b, k))
    ensures forall j :: i <= j < k ==> !(b[j] == c && Lone(u, b, j))
    decreases |b| - i
  {
    if i == |b| || (b[i] == c && Lone(u, b, i)) then i else FindLone(u, b, c, i + 1)
  }

  /** The parts between the Characters `c`, empty ones included. */
  function Pieces(u: Library, b: Bytes, c: Byte): (r: seq<Bytes>)
    ensures r != []
    decreases |b|
  {
    var k := FindLone(u, b, c, 0);
    if k == |b| then [b] else [b[..k]] + Pieces(u, b[k + 1..], c)
  }

  /** `hasPrefix` with a prefix that ends in an ASCII Character. */
  predicate HasPrefix(u: Library, b: Bytes, prefix: Bytes) {
    prefix <= b && !Extends(u, b[|prefix|..])
  }

  // ---------------------------------------------------------------- where joins can be

  /** What joins a text from behind is not changed by what follows an ASCII byte. */
  lemma ExtendsFront(u: Library, a: Bytes, rest: Bytes)
    requires rest == [] || rest[0] < ASCII
    ensures Extends(u, a + rest) == Extends(u, a)
  {
    if Extends(u, a + rest) {
      var e :| e in u.extenders && e <= a + rest;
      assert forall i | 0 <= i < |e| :: (a + rest)[i] == e[i] >= ASCII;
      assert rest != [] ==> (a + rest)[|a|] == rest[0];
      assert e <= a;
    }
    if Extends(u, a) {
      var e :| e in u.extenders && e <= a;
      assert e <= a + rest;
    }
  }

  lemma PrependsBack(u: Library, front: Bytes, a: Bytes)
    requires front == [] || front[|front| - 1] < ASCII
    ensures Prepends(u, front + a) == Prepends(u, a)
  {
    hide IsSuffix;
    if Prepends(u, front + a) {
      var e :| e in u.prepends && IsSuffix(e, front + a);
      SuffixBehind(e, front, a);
    }
    if Prepends(u, a) {
      var e :| e in u.prepends && IsSuffix(e, a);
      SuffixGrows(e, front, a);
    }
  }

  lemma SuffixBehind(e: Bytes, front: Bytes, a: Bytes)
    requires NoAscii(e) && IsSuffix(e, front + a) && (front == [] || front[|front| - 1] < ASCII)
    ensures IsSuffix(e, a)
  {
    var b := front + a;
    var at := |b| - |e|;
    assert forall k | at <= k < |b| :: b[k] == b[at..][k - at] == e[k - at] >= ASCII;
    assert front != [] ==> b[|front| - 1] == front[|front| - 1];
    assert |e| <= |a|;
    assert a[|a| - |e|..] == b[at..];
  }

  lemma SuffixGrows(e: Bytes, front: Bytes, a: Bytes)
    requires IsSuffix(e, a)
    ensures IsSuffix(e, front + a)
  {
    assert (front + a)[|front| + |a| - |e|..] == a[|a| - |e|..];
  }

  lemma NothingExtends(u: Library, b: Bytes)
    requires b == [] || b[0] < ASCII
    ensures !Extends(u, b)
  {
    assert [] + b == b;
    ExtendsFront(u, [], b);
    assert forall e :: e in u.extenders ==> NoAscii(e);
  }

  lemma NothingPrepends(u: Library, b: Bytes)
    requires b == [] || b[|b| - 1] < ASCII
    ensures !Prepends(u, b)
  {
    assert b + [] == b;
    PrependsBack(u, b, []);
    assert forall e :: e in u.prepends ==> NoAscii(e);
  }

  /** A byte joins the same scalars in a text as between ASCII bytes. */
  lemma LoneBetween(u: Library, front: Bytes, a: Bytes, rest: Bytes, i: nat)
    requires i < |a| && (front == [] || front[|front| - 1] < ASCII) && (rest == [] || rest[0] < ASCII)
    ensures Lone(u, front + a + rest, |front| + i) == Lone(u, a, i)
  {
    var b := front + a + rest;
    assert b[..|front| + i] == front + a[..i];
    assert b[|front| + i + 1..] == a[i + 1..] + rest;
    PrependsBack(u, front, a[..i]);
    ExtendsFront(u, a[i + 1..], rest);
  }

  lemma LoneFront(u: Library, a: Bytes, rest: Bytes, i: nat)
    requires i < |a| && (rest == [] || rest[0] < ASCII)
    ensures Lone(u, a + rest, i) == Lone(u, a, i)
  {
    assert [] + a == a;
    LoneBetween(u, [], a, rest, i);
  }

  lemma Regroup(a: Bytes, b: Bytes, c: Bytes)
    ensures a + b + c == a + (b + c)
  {
  }
}
