/** Word sizes, and division and multiplication facts the solver is given one at a time. */
module Arithmetic {
  const TWO_32: nat := 0x1_0000_0000
  const TWO_36: nat := 0x10_0000_0000
  const TWO_48: nat := 0x1_0000_0000_0000
  const TWO_63: nat := 0x8000_0000_0000_0000
  const TWO_64: nat := 0x1_0000_0000_0000_0000

  lemma Peel(field: nat, size: nat, rest: nat)
    requires field < size
    ensures (field + size * rest) % size == field && (field + size * rest) / size == rest
  {
    var v := field + size * rest;
    var d := v / size - rest;
    assert size * (v / size) + v % size == v;
    assert size * d == field - v % size;
    assert d < 1;
    assert d > -1;
  }

  lemma Distribute(a: nat, x: nat, w: nat, p: nat)
    ensures a * (x + w * p) == a * x + (a * w) * p
  {
  }

  lemma MulMonotone(a: nat, x: nat, y: nat)
    requires x <= y
    ensures a * x <= a * y
  {
  }

  lemma Regroup(a: nat, b: nat, q: nat, r: nat, s: nat)
    requires r < b && s < a
    ensures s + a * (r + b * q) == (s + a * r) + (a * b) * q
    ensures s + a * r < a * b
  {
    Distribute(a, r, b, q);
    MulMonotone(a, r + 1, b);
  }

  lemma Euclid(v: nat, a: nat)
    requires a > 0
    ensures v == v % a + a * (v / a) && v / a >= 0
  {
  }

  lemma DivDiv(v: nat, a: nat, b: nat)
    requires a > 0 && b > 0
    ensures a * b > 0 && v / (a * b) == v / a / b
  {
    var x := v / a;
    Euclid(v, a);
    Euclid(x, b);
    Regroup(a, b, x / b, x % b, v % a);
    Peel(v % a + a * (x % b), a * b, x / b);
  }

  /** Dropping the part of a number above a * b leaves its digits below that. */
  lemma LowPart(v: nat, a: nat, b: nat)
    requires a > 0 && b > 0
    ensures a * b > 0 && v % (a * b) / a == v / a % b && v % (a * b) % a == v % a
  {
    var x := v / a;
    Euclid(v, a);
    Euclid(x, b);
    Regroup(a, b, x / b, x % b, v % a);
    Peel(v % a + a * (x % b), a * b, x / b);
    Peel(v % a, a, x % b);
  }

  function Power(base: nat, k: nat): (p: nat)
    ensures base > 0 ==> p > 0
  {
    if k == 0 then 1 else base * Power(base, k - 1)
  }

  lemma {:induction false} PowerPlus(base: nat, a: nat, b: nat)
    ensures Power(base, a + b) == Power(base, a) * Power(base, b)
  {
    if a > 0 {
      PowerPlus(base, a - 1, b);
      Distribute(base, 0, Power(base, a - 1), Power(base, b));
    }
  }

  function BitOf(n: nat, b: nat): nat
  {
    n / Power(2, b) % 2
  }

  /** Bits below a power of two do not depend on what is above it. */
  lemma LowBits(low: nat, s: nat, y: nat, b: nat)
    requires b < s
    ensures BitOf(low + Power(2, s) * y, b) == BitOf(low, b)
  {
    PowerPlus(2, b + 1, s - b - 1);
    PowerPlus(2, b, 1);
    OddPart(low, Power(2, b), Power(2, s - b - 1), y);
  }

  lemma OddPart(low: nat, p: nat, w: nat, y: nat)
    requires p > 0
    ensures (low + p * 2 * w * y) / p % 2 == low / p % 2
  {
    var q, z := low / p, w * y;
    Euclid(low, p);
    TwoTimes(p, w, y);
    Distribute(p, q, 2, z);
    Peel(low % p, p, q + 2 * z);
    Euclid(q, 2);
    Peel(q % 2, 2, q / 2 + z);
  }

  lemma TwoTimes(p: nat, w: nat, y: nat)
    ensures p * 2 * w * y == p * 2 * (w * y)
  {
  }

  /** Bits from a power of two on do not depend on what is below it. */
  lemma HighBits(low: nat, s: nat, y: nat, b: nat)
    requires low < Power(2, s) && s <= b
    ensures BitOf(low + Power(2, s) * y, b) == BitOf(y, b - s)
  {
    PowerPlus(2, s, b - s);
    DivDiv(low + Power(2, s) * y, Power(2, s), Power(2, b - s));
    Peel(low, Power(2, s), y);
  }

  /** A number below a power of two has no bits from there on. */
  lemma NoHighBits(n: nat, s: nat, b: nat)
    requires n < Power(2, s) && s <= b
    ensures BitOf(n, b) == 0
  {
    HighBits(n, s, 0, b);
    Peel(0, Power(2, b - s), 0);
  }
}
