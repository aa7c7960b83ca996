/** Facts about products and quotients that the models share. */
module Arithmetic {

  lemma MulMonotone(a: int, b: int, c: nat)
    ensures a <= b ==> a * c <= b * c
  {
  }

  lemma DivBetween(a: nat, b: nat, lo: nat, hi: nat)
    requires b > 0 && lo * b <= a < hi * b
    ensures lo <= a / b < hi
  {
    MulMonotone(a / b + 1, lo, b);
    MulMonotone(hi, a / b, b);
  }

  lemma Quotient(n: nat, b: nat) returns (q: nat)
    requires b > 0
    ensures q == n / b && q * b <= n < (q + 1) * b
  {
    q := n / b;
  }

  lemma DoubleBounds(n: nat, m: nat, d: nat)
    requires d * (2 * m) <= n < (d + 1) * (2 * m)
    ensures (2 * d) * m <= n < (2 * d + 2) * m
    ensures d * m <= n / 2 < (d + 1) * m
  {
    assert d * (2 * m) == 2 * (d * m) == (2 * d) * m;
    assert (d + 1) * (2 * m) == 2 * ((d + 1) * m) == (2 * d + 2) * m;
  }

  /** Halving either side of the quotient is the same. */
  lemma HalveQuotient(n: nat, m: nat)
    requires m > 0
    ensures n / (2 * m) == n / m / 2 == n / 2 / m
  {
    var d := Quotient(n, 2 * m);
    DoubleBounds(n, m, d);
    DivBetween(n, m, 2 * d, 2 * d + 2);
    DivBetween(n / 2, m, d, d + 1);
  }

  lemma QuotientOrder(n: nat, a: nat, b: nat, q: nat, d: nat)
    requires a <= b && q * b <= n < (d + 1) * a
    ensures q <= d
  {
    MulMonotone(d + 1, q, a);
    MulMonotone(a, b, q);
    assert q * a == a * q <= b * q == q * b;
  }

  lemma DivAntitone(n: nat, a: nat, b: nat)
    requires 0 < a <= b
    ensures n / b <= n / a
  {
    var q := Quotient(n, b);
    var d := Quotient(n, a);
    QuotientOrder(n, a, b, q, d);
  }

  lemma ModUnique(a: int, b: nat, q: int, r: nat)
    requires r < b && a == q * b + r
    ensures a % b == r
  {
    var d := a / b;
    assert a == d * b + a % b;
    MulMonotone(d + 1, q, b);
    MulMonotone(q + 1, d, b);
  }

  lemma ModDouble(x: nat, p: nat)
    requires p > 0
    ensures x % (2 * p) == x % 2 + 2 * (x / 2 % p)
  {
    var q, r := x / 2 / p, x / 2 % p;
    assert x / 2 == q * p + r;
    assert q * (2 * p) == 2 * (q * p);
    ModUnique(x, 2 * p, q, x % 2 + 2 * r);
  }

  // ---------------------------------------------------------------- multiples

  /** x is a multiple of a, by repeated subtraction. */
  predicate Aligned(x: nat, a: nat)
    requires a > 0
    decreases x
  {
    if x < a then x == 0 else Aligned(x - a, a)
  }

  lemma {:induction false} AlignedIsRemainder(x: nat, a: nat)
    requires a > 0
    ensures Aligned(x, a) <==> x % a == 0
    decreases x
  {
    if x < a {
      ModUnique(x, a, 0, x);
    } else {
      AlignedIsRemainder(x - a, a);
      var q := (x - a) / a;
      assert x == (q + 1) * a + (x - a) % a;
      ModUnique(x, a, q + 1, (x - a) % a);
    }
  }

  lemma {:induction false} AlignedSum(x: nat, y: nat, a: nat)
    requires a > 0 && Aligned(x, a) && Aligned(y, a)
    ensures Aligned(x + y, a)
    decreases y
  {
    if y >= a { AlignedSum(x + a, y - a, a); }
  }

  /** Multiples of a are at least a apart. */
  lemma {:induction false} NoCloserMultiple(x: nat, y: nat, a: nat)
    requires a > 0 && Aligned(x, a) && x < y < x + a
    ensures !Aligned(y, a)
    decreases x
  {
    if x >= a { NoCloserMultiple(x - a, y - a, a); }
  }

  /** Rounding down to a multiple. */
  lemma RoundDown(x: nat, a: nat)
    requires a > 0
    ensures Aligned(x - x % a, a) && x - a < x - x % a <= x
  {
    ModUnique(x - x % a, a, x / a, 0);
    AlignedIsRemainder(x - x % a, a);
  }

  /** What is missing to a multiple, taken modulo a, brings n to a multiple. */
  lemma PadReaches(n: nat, a: nat, m: nat)
    requires a > 0 && n <= m * a
    ensures Aligned(n + (m * a - n) % a, a)
  {
    var q := (m * a - n) / a;
    assert (m - q) * a == m * a - q * a;
    ModUnique(n + (m * a - n) % a, a, m - q, 0);
    AlignedIsRemainder(n + (m * a - n) % a, a);
  }

  // ---------------------------------------------------------------- element offsets

  /** ptr_elem's `index * elem_size`, by repeated addition. */
  function Offset(i: nat, es: nat): nat {
    if i == 0 then 0 else Offset(i - 1, es) + es
  }

  lemma {:induction false} OffsetIsProduct(i: nat, es: nat)
    ensures Offset(i, es) == i * es
    decreases i
  {
    if i > 0 { OffsetIsProduct(i - 1, es); }
  }

  lemma {:induction false} OffsetOrder(i: nat, j: nat, es: nat)
    ensures i < j ==> Offset(i, es) + es <= Offset(j, es)
    ensures i <= j ==> Offset(i, es) <= Offset(j, es)
    decreases j
  {
    if i < j { OffsetOrder(i, j - 1, es); }
  }
}
