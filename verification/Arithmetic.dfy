/** Integer facts shared by the fixed-point code: powers of ten, floor and
    truncating division, and the few non-linear steps the solver needs by name. */
module Arithmetic {

  function Pow10(n: nat): (r: nat)
    ensures r >= 1
  {
    if n == 0 then 1 else 10 * Pow10(n - 1)
  }

  lemma {:induction false} Pow10Monotone(m: nat, n: nat)
    requires m <= n
    ensures Pow10(m) <= Pow10(n)
  {
    if m < n {
      Pow10Monotone(m, n - 1);
    }
  }

  lemma {:induction false} Pow10Add(m: nat, n: nat)
    ensures Pow10(m) * Pow10(n) == Pow10(m + n)
  {
    if m != 0 {
      Pow10Add(m - 1, n);
    }
  }

  lemma Pow10Values()
    ensures Pow10(3) == 1_000 && Pow10(6) == 1_000_000 && Pow10(10) == 10_000_000_000
    ensures Pow10(16) == 10_000_000_000_000_000
  {
    assert Pow10(2) == 100 && Pow10(4) == 10_000;
    assert Pow10(6) == 1_000_000 && Pow10(8) == 100_000_000;
    assert Pow10(10) == 10_000_000_000 && Pow10(12) == 1_000_000_000_000;
    assert Pow10(14) == 100_000_000_000_000;
  }

  function Abs(x: int): nat {
    if x < 0 then -x else x
  }

  /** Division as bn.js performs it: the quotient is truncated toward zero. */
  function TruncDiv(a: int, b: int): int
    requires b != 0
  {
    var q := Abs(a) / Abs(b);
    if (a < 0) == (b < 0) then q else -q
  }

  lemma MulMono(a: int, b: int, c: int)
    requires a <= b && 0 <= c
    ensures a * c <= b * c && c * a <= c * b
  {
  }

  lemma MulNonNegative(a: int, b: int)
    requires 0 <= a && 0 <= b
    ensures 0 <= a * b
  {
  }

  lemma NegatedProduct(a: int, b: int)
    ensures (-a) * b == -(a * b)
  {
  }

  lemma SquareNonNegative(a: int)
    ensures 0 <= a * a
  {
  }

  lemma MulLess(a: int, b: int, c: int)
    requires a < b && 0 < c
    ensures a * c < b * c && c * a < c * b
  {
  }

  lemma MulCancel(a: int, b: int, c: int)
    requires 0 < c && a * c <= b * c
    ensures a <= b
  {
    if b < a {
      MulLess(b, a, c);
    }
  }

  lemma MulCancelStrict(a: int, b: int, c: int)
    requires 0 < c && a * c < b * c
    ensures a < b
  {
    if b <= a {
      MulMono(b, a, c);
    }
  }

  /** The defining property of floor division. */
  lemma DivFloor(a: nat, b: nat)
    requires 0 < b
    ensures 0 <= a / b
    ensures (a / b) * b <= a < (a / b) * b + b
    ensures (a / b) * b <= a < (a / b + 1) * b
  {
    assert a == (a / b) * b + a % b;
  }

  lemma DivAtMost(a: nat, b: nat, q: int)
    requires 0 < b && a < (q + 1) * b
    ensures a / b <= q
  {
    DivFloor(a, b);
    MulCancelStrict(a / b, q + 1, b);
  }

  lemma DivAtLeast(a: nat, b: nat, q: int)
    requires 0 < b && q * b <= a
    ensures q <= a / b
  {
    DivFloor(a, b);
    MulCancelStrict(q, a / b + 1, b);
  }

  lemma DivUnique(a: nat, b: nat, q: int)
    requires 0 < b && q * b <= a < (q + 1) * b
    ensures a / b == q
  {
    DivAtMost(a, b, q);
    DivAtLeast(a, b, q);
  }

  lemma DivMono(a: nat, a': nat, b: nat)
    requires 0 < b && a <= a'
    ensures a / b <= a' / b
  {
    DivFloor(a, b);
    DivAtLeast(a', b, a / b);
  }

  /** The floor of a sum: the floors, and one more if the remainders make a whole. */
  lemma FloorOfSum(a: nat, b: nat, d: nat)
    requires 0 < d
    ensures (a + b) / d == a / d + b / d + if a % d + b % d >= d then 1 else 0
    ensures a / d + b / d <= (a + b) / d <= a / d + b / d + 1
  {
    var carry := if a % d + b % d >= d then 1 else 0;
    var q := a / d + b / d + carry;
    assert a == (a / d) * d + a % d && b == (b / d) * d + b % d;
    assert q * d == (a / d) * d + (b / d) * d + carry * d;
    assert (q + 1) * d == q * d + d;
    DivUnique(a + b, d, q);
  }

  /** Two floors in a row are one floor by the product. */
  lemma DivDiv(a: nat, b: nat, c: nat)
    requires 0 < b && 0 < c
    ensures 0 < b * c && (a / b) / c == a / (b * c)
  {
    var q := a / b;
    var r := q / c;
    DivFloor(a, b);
    DivFloor(q, c);
    MulLess(0, b, c);
    MulMono(r * c, q, b);
    MulMono(q + 1, (r + 1) * c, b);
    assert r * (b * c) == (r * c) * b;
    assert (r + 1) * (b * c) == ((r + 1) * c) * b;
    DivUnique(a, b * c, r);
  }
}
