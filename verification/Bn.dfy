/** bn.js integers: unbounded, with a division that truncates toward zero and
    throws on a zero divisor. */
module Bn {
  import opened Arithmetic

  datatype Attempt<+T> = Done(value: T) | Throws {
    predicate IsFailure() {
      Throws?
    }

    function PropagateFailure<U>(): Attempt<U>
      requires Throws?
    {
      Throws
    }

    function Extract(): T
      requires Done?
    {
      value
    }
  }

  function Div(a: int, b: int): Attempt<int> {
    if b == 0 then Throws else Done(TruncDiv(a, b))
  }

  function Assert(condition: bool): Attempt<()> {
    if condition then Done(()) else Throws
  }

  /** On a non-negative dividend and a positive divisor truncation is a floor. */
  lemma TruncIsFloor(a: int, b: int)
    requires 0 <= a && 0 < b
    ensures TruncDiv(a, b) == a / b
    ensures 0 <= TruncDiv(a, b) && TruncDiv(a, b) * b <= a < (TruncDiv(a, b) + 1) * b
  {
    DivFloor(a, b);
    if a == 0 {
      assert 0 / b == 0;
    }
  }

  /** The sign of the dividend goes through. */
  lemma TruncOfNegative(a: int, b: int)
    requires b != 0
    ensures TruncDiv(-a, b) == -TruncDiv(a, b)
    ensures TruncDiv(a, -b) == -TruncDiv(a, b)
  {
    if a == 0 {
      assert Abs(a) / Abs(b) == 0;
    }
  }

  /** A multiple divides exactly, whatever its sign. */
  lemma ExactQuotient(x: int, n: int)
    requires 0 < n
    ensures TruncDiv(x * n, n) == x
  {
    hide TruncDiv;
    if x < 0 {
      NaturalQuotient(-x, n);
      TruncOfNegative((-x) * n, n);
      NegatedProduct(x, n);
    } else {
      NaturalQuotient(x, n);
    }
  }

  lemma NaturalQuotient(x: int, n: int)
    requires 0 <= x && 0 < n
    ensures TruncDiv(x * n, n) == x
  {
    MulNonNegative(x, n);
    TruncIsFloor(x * n, n);
    DivUnique(x * n, n, x);
  }
}
