/** The Newton iteration of sdk/src/math/utils.ts. */
module SquareRoot {
  import opened Arithmetic
  import opened Bn

  const MAX_SAFE_INTEGER: nat := 9_007_199_254_740_991

  /** The floor of the square root, or one more when n + 1 is a perfect square. */
  predicate CloseRoot(n: nat, root: nat) {
    root * root <= n < (root + 1) * (root + 1) || root * root == n + 1
  }

  predicate IsFloorRoot(n: nat, s: nat) {
    s * s <= n < (s + 1) * (s + 1)
  }

  function FloorRoot(n: nat): (s: nat)
    ensures IsFloorRoot(n, s)
  {
    if n == 0 then 0
    else
      var s := FloorRoot(n - 1);
      if (s + 1) * (s + 1) <= n then s + 1 else s
  }

  function Pow2(k: nat): (r: nat)
    ensures 1 <= r
  {
    if k == 0 then 1 else 2 * Pow2(k - 1)
  }

  function BitLength(n: nat): nat {
    if n == 0 then 0 else 1 + BitLength(n / 2)
  }

  lemma {:induction false} BelowPow2(n: nat)
    ensures n < Pow2(BitLength(n))
  {
    if n != 0 {
      BelowPow2(n / 2);
    }
  }

  /** The bit length is exact, and the largest safe integer is 2^53 - 1. */
  lemma {:induction false} AtLeastPow2(n: nat)
    requires 0 < n
    ensures Pow2(BitLength(n) - 1) <= n < Pow2(BitLength(n))
    ensures MAX_SAFE_INTEGER == Pow2(53) - 1
  {
    BelowPow2(n);
    if 1 < n {
      AtLeastPow2(n / 2);
    } else {
      SafeIntegers();
    }
  }

  lemma SafeIntegers()
    ensures MAX_SAFE_INTEGER == Pow2(53) - 1
  {
    assert Pow2(10) == 1024;
    assert Pow2(20) == 1_048_576;
    assert Pow2(30) == 1_073_741_824;
    assert Pow2(40) == 1_099_511_627_776;
    assert Pow2(50) == 1_125_899_906_842_624;
  }

  function NewtonStep(n: nat, x: nat): nat
    requires 1 <= x
  {
    (x + n / x) / 2
  }

  /** Where one step leads: never below the root, strictly down from above it with
      the excess at least halved, and to the root or its successor from the root. */
  lemma StepBounds(n: nat, s: nat, x: nat)
    requires 1 <= s <= x && IsFloorRoot(n, s)
    ensures s <= NewtonStep(n, x)
    ensures s < x ==> NewtonStep(n, x) < x && 2 * (NewtonStep(n, x) - s) <= x - s
    ensures x == s ==> NewtonStep(n, x) == s || (NewtonStep(n, x) == s + 1 && (s + 1) * (s + 1) == n + 1)
  {
    var q := n / x;
    DivFloor(n, x);
    StepNotBelow(n, s, x, q);
    if s < x {
      MulMono(s + 1, x, s + 1);
      DivAtMost(n, x, s);
    } else {
      StepFromRoot(n, s, q);
    }
  }

  lemma StepNotBelow(n: nat, s: nat, x: nat, q: nat)
    requires s * s <= n < (q + 1) * x
    ensures 2 * s <= x + q
  {
    if x + q < 2 * s {
      ProductBelowSquare(q + 1, x, s);
    }
  }

  lemma ProductBelowSquare(a: nat, b: nat, s: nat)
    requires a + b <= 2 * s
    ensures a * b <= s * s
  {
    MulMono(a, 2 * s - b, b);
    var d := s - b;
    assert (2 * s - b) * b == s * s - d * d;
    SquareNonNegative(d);
  }

  lemma StepFromRoot(n: nat, s: nat, q: nat)
    requires 1 <= s && IsFloorRoot(n, s)
    requires q * s <= n < (q + 1) * s
    ensures (s + q) / 2 == s || ((s + q) / 2 == s + 1 && (s + 1) * (s + 1) == n + 1)
  {
    assert (s + 1) * (s + 1) == s * s + 2 * s + 1;
    assert (s + 3) * s == s * s + 3 * s;
    if s + 2 < q {
      MulMono(s + 3, q, s);
      assert false;
    }
    if q == s + 2 {
      assert q * s == s * s + 2 * s;
    }
    if q < s {
      MulMono(q + 1, s, s);
      assert false;
    }
  }

  /** The break test fires only at the answer. */
  lemma StopsAtRoot(n: nat, s: nat, x: nat)
    requires 1 <= s <= x && IsFloorRoot(n, s)
    requires Abs(x - NewtonStep(n, x)) <= 1
    ensures CloseRoot(n, NewtonStep(n, x))
    ensures NewtonStep(n, x) == s || NewtonStep(n, x) == s + 1
  {
    StepBounds(n, s, x);
    var root := NewtonStep(n, x);
    if s + 1 < x && root != s {
      // root == x - 1, so n / x >= x - 2 and n >= (x - 1)^2 - 1.
      assert n / x >= x - 2;
      DivFloor(n, x);
      MulMono(x - 2, n / x, x);
      assert (x - 2) * x == (x - 1) * (x - 1) - 1;
      NextSquare(n, s, x - 1);
    }
  }

  lemma NextSquare(n: nat, s: nat, root: nat)
    requires IsFloorRoot(n, s) && s < root && root * root <= n + 1
    ensures root == s + 1 && root * root == n + 1
  {
    MulMono(s + 1, root, s + 1);
    MulMono(s + 1, root, root);
    if s + 1 < root {
      MulLess(s + 1, root, s + 1);
    }
  }

  lemma RootPositive(n: nat, s: nat)
    requires 1 <= n && IsFloorRoot(n, s)
    ensures 1 <= s <= n
  {
    if s > n {
      MulMono(1, s, s);
    }
  }

  lemma HalvedExcess(excess: nat, excess': nat, p: nat, bound: nat)
    requires 2 * excess' <= excess && excess * p <= bound
    ensures excess' * (2 * p) <= bound
  {
    MulMono(2 * excess', excess, p);
    assert excess' * (2 * p) == (2 * excess') * p;
  }

  lemma ExcessGone(excess: nat, p: nat, bound: nat)
    requires excess * p <= bound < p
    ensures excess == 0
  {
    if excess != 0 {
      MulMono(1, excess, p);
    }
  }

  /** One pass of the loop: it either stops at the answer or halves the excess,
      and it cannot go on once the excess is gone. */
  lemma Pass(n: nat, s: nat, x: nat, count: nat)
    requires 1 <= s <= x && IsFloorRoot(n, s)
    requires (x - s) * Pow2(count) <= n - s
    ensures var root := NewtonStep(n, x);
            if Abs(x - root) <= 1 then CloseRoot(n, root)
            else
              && s <= root
              && (root - s) * Pow2(count + 1) <= n - s
              && count != BitLength(n)
  {
    hide NewtonStep;
    var root := NewtonStep(n, x);
    StepBounds(n, s, x);
    if Abs(x - root) <= 1 {
      StopsAtRoot(n, s, x);
    } else {
      HalvedExcess(x - s, root - s, Pow2(count), n - s);
      if count == BitLength(n) {
        BelowPow2(n);
        ExcessGone(x - s, Pow2(count), n - s);
      }
    }
  }

  /** squareRootBN with its default closeness of one. It throws on zero; for every
      other n whose bit length is a representable count it leaves the loop by its
      break, within one step more than that length, at the root. */
  method SquareRootBN(n: nat) returns (result: Attempt<nat>, count: nat)
    ensures result.Throws? <==> n == 0
    ensures n != 0 && BitLength(n) < MAX_SAFE_INTEGER ==> CloseRoot(n, result.value) && count <= BitLength(n) + 1
  {
    hide NewtonStep, Pow2, BitLength, FloorRoot, IsFloorRoot, CloseRoot;
    count := 0;
    if n == 0 {
      return Throws, count; // dividing by the first guess
    }
    ghost var s := FloorRoot(n);
    RootPositive(n, s);
    Start(n, s);
    var x, root := n, n;
    while count < MAX_SAFE_INTEGER
      invariant 1 <= s <= x
      invariant (x - s) * Pow2(count) <= n - s
      invariant count <= BitLength(n)
      decreases MAX_SAFE_INTEGER - count
    {
      Pass(n, s, x, count);
      count := count + 1;
      root := NewtonStep(n, x);
      if Abs(x - root) <= 1 {
        return Done(root), count;
      }
      x := root;
    }
    return Done(root), count;
  }

  lemma Start(n: nat, s: nat)
    requires s <= n
    ensures (n - s) * Pow2(0) <= n - s
  {
    assert Pow2(0) == 1;
  }

  /** What the answer is in terms of the floor of the square root. */
  lemma CloseRootIff(n: nat, root: nat)
    ensures CloseRoot(n, root) <==>
              root == FloorRoot(n) || (root == FloorRoot(n) + 1 && root * root == n + 1)
  {
    var s := FloorRoot(n);
    if root < s {
      MulMono(root + 1, s, root + 1);
      MulMono(root + 1, s, s);
    } else if s + 1 < root {
      MulMono(s + 2, root, s + 2);
      MulMono(s + 2, root, root);
      assert (s + 2) * (s + 2) == (s + 1) * (s + 1) + 2 * s + 3;
    }
  }
}
