/** Decimal numbers in text: what `%d` and string interpolation print, and what `strtoul` reads. */
module DecimalText {
  import opened HostTypes
  import opened PercentCode

  predicate Digit(c: char) {
    '0' <= c <= '9'
  }

  predicate Digits(t: Text) {
    forall i :: 0 <= i < |t| ==> Digit(t[i])
  }

  function Decimal(n: nat): (r: Text)
    ensures r != []
  {
    if n < 10 then [(48 + n) as char] else Decimal(n / 10) + [(48 + n % 10) as char]
  }

  function Value(t: Text): nat
    requires Digits(t)
  {
    if t == [] then 0 else 10 * Value(t[..|t| - 1]) + (t[|t| - 1] as int - 48)
  }

  predicate Space(c: char) {
    c == ' ' || 9 <= c as int <= 13
  }

  function SkipBlanks(t: Text): Text {
    if t != [] && Space(t[0]) then SkipBlanks(t[1..]) else t
  }

  /** `strtoul` in base 10 on the whole of a string, with the checks the callers make of errno and the end pointer. */
  function Strtoul(t: Text): Option<nat> {
    var s := SkipBlanks(t);
    var negative := s != [] && s[0] == '-';
    var digits := if s != [] && (s[0] == '-' || s[0] == '+') then s[1..] else s;
    if digits == [] || !Digits(digits) || Value(digits) >= ADDRESS_SPACE then None
    else Some(if negative then (ADDRESS_SPACE - Value(digits)) % ADDRESS_SPACE else Value(digits))
  }

  lemma {:induction false} DecimalValue(n: nat)
    ensures Digits(Decimal(n)) && Value(Decimal(n)) == n
  {
    if n >= 10 {
      DecimalValue(n / 10);
      assert Decimal(n)[..|Decimal(n)| - 1] == Decimal(n / 10);
    } else {
      assert Decimal(n)[..0] == [];
    }
  }

  /** Numbers come back from `strtoul`. */
  lemma StrtoulDecimal(n: nat)
    requires n < ADDRESS_SPACE
    ensures Strtoul(Decimal(n)) == Some(n)
  {
    DecimalValue(n);
    assert Digit(Decimal(n)[0]);
  }

  lemma DecimalInjective(m: nat, n: nat)
    requires Decimal(m) == Decimal(n)
    ensures m == n
  {
    DecimalValue(m);
    DecimalValue(n);
  }

  lemma {:induction false} DecimalLength(n: nat, k: nat, bound: nat)
    requires k > 0 && n < bound && bound == PowerOfTen(k)
    ensures |Decimal(n)| <= k
    decreases k
  {
    if n >= 10 {
      assert k > 1 by {
        assert PowerOfTen(1) == 10 * PowerOfTen(0);
      }
      DecimalLength(n / 10, k - 1, PowerOfTen(k - 1));
    }
  }

  function PowerOfTen(k: nat): nat {
    if k == 0 then 1 else 10 * PowerOfTen(k - 1)
  }
}
