/** Nonlinear facts about multiples and remainders. */
module Arithmetic {

  lemma MulMonotonic(d: nat, i: nat, j: nat)
    requires i <= j
    ensures d * i <= d * j
  {
  }

  lemma MulStep(d: nat, i: nat, j: nat)
    ensures i < j ==> d * i + d <= d * j
    ensures i >= j ==> d * i >= d * j
  {
    if i < j {
      MulMonotonic(d, i + 1, j);
    } else {
      MulMonotonic(d, j, i);
    }
  }

  lemma ModUnique(d: nat, q: nat, r: nat)
    requires r < d
    ensures (d * q + r) % d == r
  {
    var x := d * q + r;
    MulStep(d, x / d, q);
    MulStep(d, q, x / d);
  }

  /** Numbers less than `d` apart have different remainders. */
  lemma ModDiffer(d: nat, i: nat, j: nat)
    requires i < j < i + d
    ensures i % d != j % d
  {
    MulStep(d, i / d, j / d);
    assert i == d * (i / d) + i % d && j == d * (j / d) + j % d;
  }

  /** Multiples of `d` differ by at least `d`. */
  lemma AlignedBelow(d: nat, a: nat, b: nat)
    requires d > 0 && a % d == 0 && b % d == 0 && a < b
    ensures a + d <= b
  {
    MulStep(d, a / d, b / d);
  }
}
