/** Decimal digit strings and their values. */
module Decimal {
  import opened Arithmetic

  predicate IsDigit(c: char) {
    '0' <= c <= '9'
  }

  predicate AllDigits(s: string) {
    forall i :: 0 <= i < |s| ==> IsDigit(s[i])
  }

  function DigitValue(c: char): nat
    requires IsDigit(c)
  {
    (c - '0') as nat
  }

  function DigitChar(d: nat): (c: char)
    requires d < 10
    ensures IsDigit(c) && DigitValue(c) == d
  {
    '0' + d as char
  }

  function Value(s: string): nat
    requires AllDigits(s)
  {
    if s == [] then 0 else 10 * Value(s[..|s| - 1]) + DigitValue(s[|s| - 1])
  }

  /** The usual decimal form, without leading zeros. */
  function Digits(n: nat): (s: string)
    ensures AllDigits(s) && s != []
  {
    if n < 10 then [DigitChar(n)] else Digits(n / 10) + [DigitChar(n % 10)]
  }

  function Zeros(n: nat): (s: string)
    ensures |s| == n && AllDigits(s) && forall i :: 0 <= i < n ==> s[i] == '0'
  {
    seq(n, _ => '0')
  }

  lemma {:induction false} ValueOfDigits(n: nat)
    ensures Value(Digits(n)) == n
    ensures 0 < n ==> Digits(n)[0] != '0'
    ensures Digits(n)[|Digits(n)| - 1] == DigitChar(n % 10)
  {
    if 10 <= n {
      ValueOfDigits(n / 10);
      assert Digits(n)[..|Digits(n)| - 1] == Digits(n / 10);
    } else {
      assert [DigitChar(n)][..0] == [];
    }
  }

  lemma {:induction false} ValueOfAppend(a: string, b: string)
    requires AllDigits(a) && AllDigits(b)
    ensures AllDigits(a + b) && Value(a + b) == Value(a) * Pow10(|b|) + Value(b)
  {
    assert AllDigits(a + b);
    if b == [] {
      assert a + b == a;
    } else {
      var front := b[..|b| - 1];
      ValueOfAppend(a, front);
      assert (a + b)[..|a + b| - 1] == a + front;
      ShiftDigit(Value(a), Pow10(|front|));
      assert Pow10(|b|) == 10 * Pow10(|front|);
    }
  }

  lemma ShiftDigit(a: nat, p: nat)
    ensures 10 * (a * p) == a * (10 * p)
  {
  }

  lemma {:induction false} ValueOfZeros(n: nat)
    ensures Value(Zeros(n)) == 0
  {
    if n != 0 {
      ValueOfZeros(n - 1);
      assert Zeros(n)[..n - 1] == Zeros(n - 1);
    }
  }

  lemma LeadingZeros(n: nat, s: string)
    requires AllDigits(s)
    ensures Value(Zeros(n) + s) == Value(s)
  {
    ValueOfAppend(Zeros(n), s);
    ValueOfZeros(n);
  }

  lemma TrailingZeros(s: string, n: nat)
    requires AllDigits(s)
    ensures Value(s + Zeros(n)) == Value(s) * Pow10(n)
  {
    ValueOfAppend(s, Zeros(n));
    ValueOfZeros(n);
  }

  /** The `replace(/^0+/, '')` and `replace(/0+$/, '')` of the printer. */
  function StripLeadingZeros(s: string): string {
    if s != [] && s[0] == '0' then StripLeadingZeros(s[1..]) else s
  }

  function StripTrailingZeros(s: string): string {
    if s != [] && s[|s| - 1] == '0' then StripTrailingZeros(s[..|s| - 1]) else s
  }

  lemma {:induction false} StripLeading(s: string, t: string)
    requires t != [] ==> t[0] != '0'
    ensures StripLeadingZeros(s + t) == StripLeadingZeros(s) + t
    ensures AllDigits(s) ==> AllDigits(StripLeadingZeros(s)) && Value(StripLeadingZeros(s)) == Value(s)
  {
    if s == [] {
      assert s + t == t;
    } else if s[0] == '0' {
      StripLeading(s[1..], t);
      assert (s + t)[1..] == s[1..] + t;
      assert s == Zeros(1) + s[1..];
      if AllDigits(s) {
        LeadingZeros(1, s[1..]);
      }
    }
  }

  /** The stripped zeros were there. */
  lemma {:induction false} StripTrailing(s: string, t: string)
    requires s != [] ==> s[|s| - 1] != '0'
    ensures StripTrailingZeros(s + t) == s + StripTrailingZeros(t)
    ensures |StripTrailingZeros(t)| <= |t|
    ensures StripTrailingZeros(t) + Zeros(|t| - |StripTrailingZeros(t)|) == t
  {
    if t == [] {
      assert s + t == s;
    } else if t[|t| - 1] == '0' {
      var front := t[..|t| - 1];
      StripTrailing(s, front);
      assert (s + t)[..|s + t| - 1] == s + front;
      assert t == front + Zeros(1);
      var n := |front| - |StripTrailingZeros(front)|;
      assert Zeros(n) + Zeros(1) == Zeros(n + 1);
    }
  }

  lemma StripZeros(n: nat)
    ensures StripLeadingZeros(Zeros(n)) == []
  {
    if n != 0 {
      assert Zeros(n)[1..] == Zeros(n - 1);
      StripZeros(n - 1);
    }
  }

  /** Stripping leaves no zero in front. */
  lemma {:induction false} StripStarts(s: string)
    ensures var kept := StripLeadingZeros(s); kept != [] ==> kept[0] != '0'
  {
    if s != [] && s[0] == '0' {
      StripStarts(s[1..]);
    }
  }

  lemma {:induction false} ValueBelow(s: string)
    requires AllDigits(s)
    ensures Value(s) < Pow10(|s|)
  {
    if s != [] {
      ValueBelow(s[..|s| - 1]);
    }
  }

  /** Digits without a zero in front are the decimal form of their value. */
  lemma {:induction false} Canonical(s: string)
    requires AllDigits(s) && s != [] && s[0] != '0'
    ensures 0 < Value(s) && s == Digits(Value(s))
  {
    var front, last := s[..|s| - 1], s[|s| - 1];
    assert s == front + [last];
    if front == [] {
      assert Value(front) == 0;
      assert DigitChar(DigitValue(last)) == last;
    } else {
      Canonical(front);
      assert Value(s) / 10 == Value(front) && Value(s) % 10 == DigitValue(last);
      assert DigitChar(DigitValue(last)) == last;
    }
  }

  /** Splitting digits divides their value. */
  lemma SplitValue(front: string, back: string)
    requires AllDigits(front) && AllDigits(back)
    ensures AllDigits(front + back)
    ensures Value(front + back) / Pow10(|back|) == Value(front) && Value(front + back) % Pow10(|back|) == Value(back)
  {
    ValueOfAppend(front, back);
    ValueBelow(back);
    Divided(Value(front), Value(back), Pow10(|back|));
  }

  lemma Divided(q: nat, r: nat, d: nat)
    requires r < d
    ensures (q * d + r) / d == q && (q * d + r) % d == r
  {
    MulNonNegative(q, d);
    assert (q + 1) * d == q * d + d;
    DivUnique(q * d + r, d, q);
  }
}
