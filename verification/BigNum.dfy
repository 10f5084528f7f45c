/** Printing and parsing fixed-point numbers (sdk/src/factory/bigNum.ts). */
module BigNum {
  import opened Arithmetic
  import opened Bn
  import opened Decimal
  import opened Wrappers

  const DELIM := "."
  const SPACER := ','
  const MAX_PRECISION := 100

  function ToString(val: int): string {
    if val < 0 then "-" + Digits(-val) else Digits(val)
  }

  /** new BN(string): an optional sign and at least one digit; bn.js 5 rejects any
      other character. */
  function Parse(s: string): Attempt<int> {
    if s != [] && AllDigits(s) then Done(Value(s))
    else if |s| > 1 && s[0] == '-' && AllDigits(s[1..]) then Done(-(Value(s[1..]) as int))
    else Throws
  }

  /** At least `precision` zeros in front, and the delimiter that many places
      from the end. */
  function Delimit(plain: string, precision: nat): string {
    var padded := Zeros(precision) + plain;
    var cut := |padded| - precision;
    padded[..cut] + DELIM + padded[cut..]
  }

  /** Without leading zeros, but with one ahead of a leading delimiter, and without
      a trailing delimiter. */
  function Trim(delimited: string): string {
    var stripped := StripLeadingZeros(delimited);
    WithoutLast(if stripped != [] && stripped[0] == '.' then "0" + stripped else stripped, '.')
  }

  /** print, for a precision that is not negative. */
  function Print(val: int, precision: nat): string {
    Trim(Delimit(ToString(val), precision))
  }

  /** Drop one trailing `c`. */
  function WithoutLast(s: string, c: char): string {
    if s != [] && s[|s| - 1] == c then s[..|s| - 1] else s
  }

  /** printShort without an override. */
  function PrintShort(val: int, precision: nat): string {
    WithoutLast(WithoutLast(StripTrailingZeros(Print(val, precision)), '.'), SPACER)
  }

  datatype Parts = Parts(left: string, right: Option<string>)

  function IndexOf(s: string, c: char): (i: nat)
    ensures i <= |s|
    ensures i < |s| ==> s[i] == c
    ensures forall j :: 0 <= j < i ==> s[j] != c
  {
    if s == [] || s[0] == c then 0 else 1 + IndexOf(s[1..], c)
  }

  /** The first two parts of a split at the delimiter. */
  function Split(s: string): Parts {
    var i := IndexOf(s, '.');
    if i == |s| then Parts(s, None)
    else
      var rest := s[i + 1..];
      Parts(s[..i], Some(rest[..IndexOf(rest, '.')]))
  }

  function RightOf(parts: Parts): string {
    if parts.right.Some? then parts.right.value else ""
  }

  /** fromPrint with a precision: the underlying value it builds. */
  function FromPrint(s: string, precision: nat): Attempt<int> {
    var _ :- Assert(precision < MAX_PRECISION);
    if s == "" || s == DELIM then Done(0)
    else
      var parts := Split(s);
      var raw :- Parse(parts.left + RightOf(parts));
      var shift := precision - |RightOf(parts)|;
      Done(if shift < 0 then TruncDiv(raw, Pow10(-shift)) else raw * Pow10(shift))
  }

  // ------------------------------------------------------- the printed form

  /** A sign, an integer part, and `fraction` after the delimiter if there is any. */
  function Form(negative: bool, whole: string, fraction: string): string {
    (if negative then "-" else "") + whole + (if fraction == [] then "" else DELIM + fraction)
  }

  predicate IsForm(val: int, negative: bool, whole: string, fraction: string) {
    && AllDigits(whole) && AllDigits(fraction) && AllDigits(whole + fraction)
    && (negative <==> val < 0)
    && whole + fraction != []
    && (!negative ==> whole != [])
  }

  /** Printing puts the sign ahead of every digit it keeps. */
  predicate Printable(val: int, precision: nat) {
    val < 0 ==> precision <= |Digits(-val)|
  }

  function WholePart(val: int, precision: nat): nat {
    DivFloor(Abs(val), Pow10(precision));
    Abs(val) / Pow10(precision)
  }

  /** `whole` is the decimal form of the whole part, without leading zeros; a negative
      number below one has none. */
  predicate IsWhole(val: int, precision: nat, whole: string) {
    var n := WholePart(val, precision);
    whole == if val < 0 && n == 0 then "" else Digits(n)
  }

  lemma PrintForm(val: int, precision: nat) returns (whole: string, fraction: string)
    requires Printable(val, precision)
    ensures IsForm(val, val < 0, whole, fraction) && |fraction| == precision
    ensures Value(whole + fraction) == Abs(val)
    ensures IsWhole(val, precision, whole) && Value(fraction) == Abs(val) % Pow10(precision)
    ensures Print(val, precision) == Form(val < 0, whole, fraction)
  {
    hide Print, Form, Value, Digits;
    if val < 0 {
      whole, fraction := NegativeForm(-val, precision);
    } else {
      whole, fraction := NaturalForm(val, precision);
    }
    SplitValue(whole, fraction);
    WholeIsCanonical(val, precision, whole);
  }

  lemma WholeIsCanonical(val: int, precision: nat, whole: string)
    requires AllDigits(whole) && Value(whole) == Abs(val) / Pow10(precision)
    requires whole == [] || whole[0] != '0' || (val >= 0 && whole == "0")
    requires val >= 0 ==> whole != []
    ensures IsWhole(val, precision, whole)
  {
    hide Pow10;
    if whole == [] {
      EmptyValue();
    } else if whole[0] != '0' {
      Canonical(whole);
    } else {
      assert whole[..0] == [];
    }
  }

  lemma DelimitAt(plain: string, precision: nat, left: string, right: string)
    requires Zeros(precision) + plain == left + right && |right| == precision
    ensures Delimit(plain, precision) == left + DELIM + right
  {
    assert (left + right)[..|left|] == left && (left + right)[|left|..] == right;
  }

  lemma NegativeForm(n: int, precision: nat) returns (whole: string, fraction: string)
    requires 0 < n && precision <= |Digits(n)|
    ensures IsForm(-n, true, whole, fraction) && |fraction| == precision
    ensures Value(whole + fraction) == n && (whole == [] || whole[0] != '0')
    ensures Print(-n, precision) == Form(true, whole, fraction)
  {
    hide Trim, Delimit, StripLeadingZeros, Value, Digits, Form;
    ValueOfDigits(n);
    whole, fraction := SignedDelimit(Digits(n), precision);
    assert ToString(-n) == "-" + Digits(n);
    TrimNegative(precision, whole, fraction);
  }

  lemma SignedDelimit(digits: string, precision: nat) returns (whole: string, fraction: string)
    requires AllDigits(digits) && precision <= |digits|
    ensures digits == whole + fraction && |fraction| == precision
    ensures AllDigits(whole) && AllDigits(fraction)
    ensures Delimit("-" + digits, precision) == Zeros(precision) + ("-" + whole) + DELIM + fraction
  {
    hide Delimit;
    whole, fraction := digits[..|digits| - precision], digits[|digits| - precision..];
    var left := Zeros(precision) + ("-" + whole);
    assert Zeros(precision) + ("-" + digits) == left + fraction;
    DelimitAt("-" + digits, precision, left, fraction);
  }

  lemma TrimNegative(precision: nat, whole: string, fraction: string)
    requires AllDigits(fraction)
    ensures Trim(Zeros(precision) + ("-" + whole) + DELIM + fraction) == Form(true, whole, fraction)
  {
    hide StripLeadingZeros;
    var kept := "-" + whole + DELIM + fraction;
    assert Zeros(precision) + ("-" + whole) + DELIM + fraction == Zeros(precision) + kept;
    StripLeading(Zeros(precision), kept);
    StripZeros(precision);
    assert [] + kept == kept;
    DroppedDelimiter("-" + whole, fraction);
  }

  lemma NaturalForm(n: nat, precision: nat) returns (whole: string, fraction: string)
    ensures IsForm(n, false, whole, fraction) && |fraction| == precision
    ensures Value(whole + fraction) == n && (whole[0] != '0' || whole == "0")
    ensures Print(n, precision) == Form(false, whole, fraction)
  {
    hide Trim, Delimit, StripLeadingZeros, Value;
    var digits := Digits(n);
    ValueOfDigits(n);
    LeadingZeros(precision, digits);
    var padded := Zeros(precision) + digits;
    var left := padded[..|digits|];
    fraction := padded[|digits|..];
    assert left + fraction == padded;
    assert AllDigits(left) && AllDigits(fraction);
    DelimitAt(digits, precision, left, fraction);
    whole := TrimNatural(left, fraction);
  }

  lemma TrimNatural(left: string, fraction: string) returns (whole: string)
    requires AllDigits(left) && AllDigits(fraction)
    ensures AllDigits(whole) && whole != [] && AllDigits(whole + fraction) && AllDigits(left + fraction)
    ensures Value(whole + fraction) == Value(left + fraction) && (whole[0] != '0' || whole == "0")
    ensures Trim(left + DELIM + fraction) == Form(false, whole, fraction)
  {
    hide StripLeadingZeros;
    StrippedStart(left);
    StripStarts(left);
    whole := if StripLeadingZeros(left) == [] then "0" else StripLeadingZeros(left);
    WholeValue(left, whole, fraction);
    Delimited(left, whole, fraction);
    DroppedDelimiter(whole, fraction);
    assert "" + whole == whole;
  }

  lemma Delimited(left: string, whole: string, fraction: string)
    requires AllDigits(left)
    requires whole == if StripLeadingZeros(left) == [] then "0" else StripLeadingZeros(left)
    ensures var stripped := StripLeadingZeros(left + DELIM + fraction);
            (if stripped != [] && stripped[0] == '.' then "0" + stripped else stripped) == whole + DELIM + fraction
  {
    hide StripLeadingZeros;
    StripLeading(left, DELIM + fraction);
    assert left + (DELIM + fraction) == left + DELIM + fraction;
    StrippedStart(left);
    LeadingZeroFor(StripLeadingZeros(left), whole, fraction);
  }

  lemma LeadingZeroFor(stripped: string, whole: string, fraction: string)
    requires AllDigits(stripped) && whole == if stripped == [] then "0" else stripped
    ensures var s := stripped + (DELIM + fraction);
            (if s != [] && s[0] == '.' then "0" + s else s) == whole + DELIM + fraction
  {
    var s := stripped + (DELIM + fraction);
    assert whole + (DELIM + fraction) == whole + DELIM + fraction;
    if stripped == [] {
      assert s == DELIM + fraction;
    } else {
      assert s[0] == stripped[0] && IsDigit(stripped[0]);
    }
  }

  predicate Plain(s: string) {
    forall i :: 0 <= i < |s| ==> s[i] != '.' && s[i] != SPACER
  }

  lemma DroppedDelimiter(front: string, fraction: string)
    requires Plain(fraction) && front != []
    ensures WithoutLast(front + DELIM + fraction, '.') == front + (if fraction == [] then "" else DELIM + fraction)
  {
    if fraction == [] {
      assert front + DELIM + fraction == front + DELIM;
    } else {
      assert (front + DELIM + fraction)[|front + DELIM + fraction| - 1] == fraction[|fraction| - 1];
    }
  }

  lemma StrippedStart(left: string)
    requires AllDigits(left)
    ensures AllDigits(StripLeadingZeros(left))
  {
    StripLeading(left, "");
  }

  lemma WholeValue(left: string, whole: string, fraction: string)
    requires AllDigits(left) && AllDigits(fraction)
    requires whole == if StripLeadingZeros(left) == [] then "0" else StripLeadingZeros(left)
    ensures AllDigits(whole) && AllDigits(whole + fraction) && AllDigits(left + fraction)
    ensures Value(whole + fraction) == Value(left + fraction)
  {
    StripLeading(left, "");
    ValueOfAppend(left, fraction);
    if StripLeadingZeros(left) == [] {
      assert Value("0") == 0 by {
        ValueOfZeros(1);
        assert Zeros(1) == "0";
      }
    }
    ValueOfAppend(whole, fraction);
  }

  /** Parsing a printed form: the digits on both sides, scaled to the precision. */
  lemma ParseForm(val: int, negative: bool, whole: string, fraction: string, precision: nat)
    requires IsForm(val, negative, whole, fraction)
    requires |fraction| <= precision < MAX_PRECISION
    ensures var magnitude := Value(whole + fraction) * Pow10(precision - |fraction|);
            FromPrint(Form(negative, whole, fraction), precision) == Done(if negative then -magnitude else magnitude)
  {
    hide Value, Pow10, Split, IndexOf;
    var front := (if negative then "-" else "") + whole;
    SplitForm(front, fraction);
    var s := Form(negative, whole, fraction);
    assert Split(s).left == front && RightOf(Split(s)) == fraction;
    assert s[0] == front[0] != '.';
    ParseDigits(negative, whole + fraction);
    assert (if negative then "-" else "") + whole + fraction == (if negative then "-" else "") + (whole + fraction);
    NegatedProduct(Value(whole + fraction), Pow10(precision - |fraction|));
  }

  /** `s` is digits, behind a minus sign if `negative`. */
  predicate IsSigned(s: string, negative: bool, digits: string) {
    digits != [] && AllDigits(digits) && s == (if negative then "-" else "") + digits
  }

  /** Parsing takes digits behind an optional minus sign, at least one of them, and
      nothing else. */
  lemma ParseIff(s: string)
    ensures Parse(s).Done? <==> IsSigned(s, false, s) || (s != [] && IsSigned(s, true, s[1..]))
  {
    hide Value;
    assert "" + s == s;
    if s != [] {
      if s[0] == '-' {
        assert s == "-" + s[1..];
        assert !IsDigit(s[0]);
      } else {
        assert ("-" + s[1..])[0] == '-';
      }
    }
  }

  /** Nothing, or a delimiter alone, is zero. */
  lemma EmptyIsZero(precision: nat)
    ensures FromPrint("", precision) == FromPrint(".", precision) == if precision < 100 then Done(0) else Throws
  {
  }

  /** What stands behind a second delimiter is ignored. */
  lemma SecondDelimiterEnds(left: string, right: string, rest: string, precision: nat)
    requires Plain(left) && Plain(right) && left + right != ""
    ensures FromPrint(left + DELIM + right + DELIM + rest, precision) == FromPrint(left + DELIM + right, precision)
  {
    hide Parse, Pow10, TruncDiv, Split;
    SplitAtFirstTwo(left, right, DELIM + rest);
    SplitAtFirstTwo(left, right, "");
    assert left + DELIM + (right + (DELIM + rest)) == left + DELIM + right + DELIM + rest;
    assert left + DELIM + (right + "") == left + DELIM + right;
  }

  lemma SplitAtFirstTwo(left: string, right: string, rest: string)
    requires Plain(left) && Plain(right) && (rest != "" ==> rest[0] == '.')
    ensures Split(left + DELIM + (right + rest)) == Parts(left, Some(right))
  {
    var tail := right + rest;
    var s := left + DELIM + tail;
    assert s[|left|] == '.' && forall i :: 0 <= i < |left| ==> s[i] == left[i];
    IndexIs(s, '.', |left|);
    assert s[..|left|] == left && s[|left| + 1..] == tail;
    assert forall i :: 0 <= i < |right| ==> tail[i] == right[i];
    IndexIs(tail, '.', |right|);
    assert tail[..|right|] == right;
  }

  /** Decimals beyond the precision are dropped. */
  lemma ParseLongForm(val: int, negative: bool, whole: string, fraction: string, precision: nat)
    requires IsForm(val, negative, whole, fraction)
    requires precision <= |fraction| && precision < MAX_PRECISION
    ensures AllDigits(whole + fraction[..precision])
    ensures var magnitude := Value(whole + fraction[..precision]);
            FromPrint(Form(negative, whole, fraction), precision) == Done(if negative then 0 - magnitude else magnitude)
  {
    hide Value, Pow10, Split, IndexOf, TruncDiv;
    var front := (if negative then "-" else "") + whole;
    SplitForm(front, fraction);
    var s := Form(negative, whole, fraction);
    assert Split(s).left == front && RightOf(Split(s)) == fraction;
    assert s[0] == front[0] != '.';
    ParseDigits(negative, whole + fraction);
    assert (if negative then "-" else "") + whole + fraction == (if negative then "-" else "") + (whole + fraction);
    DropDecimals(whole, fraction, precision);
  }

  lemma DropDecimals(whole: string, fraction: string, precision: nat)
    requires AllDigits(whole) && AllDigits(fraction) && precision <= |fraction|
    ensures AllDigits(whole + fraction) && AllDigits(whole + fraction[..precision])
    ensures var n, kept, shift := Value(whole + fraction), Value(whole + fraction[..precision]), |fraction| - precision;
            && TruncDiv(n, Pow10(shift)) == kept && TruncDiv(0 - n, Pow10(shift)) == 0 - kept
            && (shift == 0 ==> n * Pow10(0) == kept && (0 - n) * Pow10(0) == 0 - kept)
  {
    hide Value, TruncDiv;
    var front, back := whole + fraction[..precision], fraction[precision..];
    assert front + back == whole + fraction;
    SplitValue(front, back);
    TruncIsFloor(Value(front + back), Pow10(|back|));
    TruncOfNegative(Value(front + back), Pow10(|back|));
    if back == [] {
      assert front + back == front;
    }
  }

  lemma ParseDigits(negative: bool, digits: string)
    requires AllDigits(digits) && digits != []
    ensures Parse((if negative then "-" else "") + digits)
            == Done(if negative then -(Value(digits) as int) else Value(digits))
  {
    hide Value;
    if negative {
      ParseNegative(digits);
    } else {
      assert "" + digits == digits;
    }
  }

  lemma ParseNegative(digits: string)
    requires AllDigits(digits) && digits != []
    ensures Parse("-" + digits) == Done(-(Value(digits) as int))
  {
    hide Value;
    var s := "-" + digits;
    assert s[0] == '-' && !IsDigit(s[0]);
    assert s[1..] == digits;
  }

  lemma SplitForm(front: string, fraction: string)
    requires Plain(front) && Plain(fraction)
    ensures var s := front + (if fraction == [] then "" else DELIM + fraction);
            Split(s) == Parts(front, if fraction == [] then None else Some(fraction))
  {
    var s := front + (if fraction == [] then "" else DELIM + fraction);
    if fraction == [] {
      assert s == front;
      IndexIs(s, '.', |front|);
    } else {
      assert s[|front|] == '.';
      IndexIs(s, '.', |front|);
      assert s[..|front|] == front;
      assert s[|front| + 1..] == fraction;
      IndexIs(fraction, '.', |fraction|);
      assert fraction[..|fraction|] == fraction;
    }
  }

  lemma IndexIs(s: string, c: char, i: nat)
    requires i <= |s| && (i < |s| ==> s[i] == c)
    requires forall j :: 0 <= j < i ==> s[j] != c
    ensures IndexOf(s, c) == i
  {
  }

  // ------------------------------------------------------- round trips

  /** With fewer digits than decimal places the sign ends up behind the delimiter. */
  lemma UnprintableForm(val: int, precision: nat) returns (fraction: string)
    requires !Printable(val, precision)
    ensures fraction == Zeros(precision - 1 - |Digits(-val)|) + ("-" + Digits(-val))
    ensures Print(val, precision) == "0" + DELIM + fraction
  {
    hide Trim, Delimit, StripLeadingZeros;
    var digits := Digits(-val);
    fraction := Zeros(precision - 1 - |digits|) + ("-" + digits);
    var left := Zeros(1 + |digits|);
    assert Zeros(precision) + ToString(val) == left + fraction;
    DelimitAt(ToString(val), precision, left, fraction);
    TrimUnprintable(left, fraction);
  }

  lemma TrimUnprintable(left: string, fraction: string)
    requires left == Zeros(|left|) && Plain(fraction) && fraction != []
    ensures Trim(left + DELIM + fraction) == "0" + DELIM + fraction
  {
    hide StripLeadingZeros;
    StripZeros(|left|);
    Delimited(left, "0", fraction);
    DroppedDelimiter("0", fraction);
    assert "0" + (DELIM + fraction) == "0" + DELIM + fraction;
  }

  /** A minus sign behind the delimiter is rejected. */
  lemma SignBehindDelimiterThrows(fraction: string, k: nat, precision: nat)
    requires Plain(fraction) && k < |fraction| && fraction[k] == '-'
    ensures FromPrint("0" + DELIM + fraction, precision) == Throws
  {
    hide Split, IndexOf, Parse, Value;
    var s := "0" + DELIM + fraction;
    SplitForm("0", fraction);
    assert "0" + (DELIM + fraction) == s;
    assert s[0] == '0';
    InnerSignThrows("0" + fraction, k + 1);
  }

  lemma InnerSignThrows(digits: string, k: nat)
    requires 0 < k < |digits| && digits[k] == '-' && digits[0] == '0'
    ensures Parse(digits) == Throws
  {
    assert !IsDigit(digits[k]);
  }

  /** Parsing what was printed gives the number back, for every number whose sign
      is printed in front of its digits, and for no other. */
  lemma PrintRoundTripIff(val: int, precision: nat)
    ensures FromPrint(Print(val, precision), precision) == Done(val)
            <==> precision < 100 && Printable(val, precision)
  {
    hide Print, FromPrint, Form, IsForm;
    if precision >= MAX_PRECISION {
      TooPrecise(Print(val, precision), precision);
    } else if Printable(val, precision) {
      var whole, fraction := PrintForm(val, precision);
      ParseForm(val, val < 0, whole, fraction, precision);
      assert Pow10(precision - |fraction|) == 1;
    } else {
      var fraction := UnprintableForm(val, precision);
      SignBehindDelimiterThrows(fraction, precision - 1 - |Digits(-val)|, precision);
    }
  }

  lemma TooPrecise(s: string, precision: nat)
    requires MAX_PRECISION <= precision
    ensures FromPrint(s, precision) == Throws
  {
  }

  lemma NoTrailing(s: string)
    requires s != [] ==> s[|s| - 1] != '.' && s[|s| - 1] != SPACER
    ensures WithoutLast(WithoutLast(s, '.'), SPACER) == s
  {
  }

  /** Shortening a number with a fraction drops the fraction's trailing zeros, and
      the delimiter with the last of them. */
  lemma ShortenFraction(front: string, fraction: string)
    requires front != [] && Plain(front) && Plain(fraction) && fraction != []
    ensures var kept := StripTrailingZeros(fraction);
            WithoutLast(WithoutLast(StripTrailingZeros(front + DELIM + fraction), '.'), SPACER)
            == front + (if kept == [] then "" else DELIM + kept)
  {
    var kept := StripTrailingZeros(fraction);
    StripTrailing(front + DELIM, fraction);
    assert Plain(kept) by {
      assert kept <= fraction;
    }
    DroppedDelimiter(front, kept);
    NoTrailing(front + (if kept == [] then "" else DELIM + kept));
    NoSpacer(front, kept);
  }

  lemma NoSpacer(front: string, kept: string)
    requires front != [] && Plain(front) && Plain(kept)
    ensures var s := front + (if kept == [] then "" else DELIM + kept);
            WithoutLast(s, SPACER) == s
  {
  }

  /** The short form of a printable number with decimal places. */
  lemma ShortForm(val: int, precision: nat) returns (whole: string, kept: string)
    requires Printable(val, precision) && 0 < precision
    ensures IsForm(val, val < 0, whole, kept) && |kept| <= precision
    ensures PrintShort(val, precision) == Form(val < 0, whole, kept)
    ensures IsWhole(val, precision, whole) && (kept != [] ==> kept[|kept| - 1] != '0')
    ensures Value(whole + kept) * Pow10(precision - |kept|) == Abs(val)
  {
    hide Print, StripTrailingZeros, Value, IsWhole;
    var w, fraction := PrintForm(val, precision);
    StripEnds(fraction);
    whole, kept := w, StripTrailingZeros(fraction);
    var front := (if val < 0 then "-" else "") + whole;
    ShortenFraction(front, fraction);
    assert front + (DELIM + fraction) == front + DELIM + fraction;
    StripTrailing("", fraction);
    ShortDigits(whole, fraction, kept);
    if whole + kept == [] {
      EmptyValue();
    }
  }

  lemma ShortDigits(whole: string, fraction: string, kept: string)
    requires AllDigits(whole) && AllDigits(fraction) && |kept| <= |fraction|
    requires kept + Zeros(|fraction| - |kept|) == fraction
    ensures AllDigits(kept) && AllDigits(whole + kept) && AllDigits(whole + fraction)
    ensures Value(whole + kept) * Pow10(|fraction| - |kept|) == Value(whole + fraction)
  {
    hide Value;
    assert kept <= fraction;
    assert (whole + kept) + Zeros(|fraction| - |kept|) == whole + fraction;
    TrailingZeros(whole + kept, |fraction| - |kept|);
  }

  lemma EmptyValue()
    ensures Value([]) == 0
  {
  }

  lemma {:induction false} StripKeepsValue(s: string)
    requires AllDigits(s)
    ensures var kept := StripTrailingZeros(s);
            && AllDigits(kept) && kept <= s
            && Value(kept) * Pow10(|s| - |kept|) == Value(s)
            && (kept == s <==> s == [] || s[|s| - 1] != '0')
  {
    StripTrailing("", s);
    StripEnds(s);
    var kept := StripTrailingZeros(s);
    assert kept <= s;
    TrailingZeros(kept, |s| - |kept|);
  }

  /** Without decimal places the short form drops the number's own zeros. */
  lemma ShortInteger(val: int) returns (kept: string)
    ensures AllDigits(kept) && PrintShort(val, 0) == (if val < 0 then "-" else "") + kept
    ensures kept == [] <==> val == 0
    ensures kept != [] ==> kept[0] != '0' && kept[|kept| - 1] != '0'
    ensures val != 0 ==> (Value(kept) == Abs(val) <==> val % 10 != 0)
  {
    hide Print, StripTrailingZeros, Value, Digits;
    var whole, fraction := PrintForm(val, 0);
    StripEnds(whole);
    assert Pow10(0) == 1 && Abs(val) / 1 == Abs(val);
    ValueOfDigits(Abs(val));
    var sign := if val < 0 then "-" else "";
    assert whole + fraction == whole && Form(val < 0, whole, fraction) == sign + whole;
    StripTrailing(sign, whole);
    kept := StripTrailingZeros(whole);
    StripKeepsValue(whole);
    NoTrailing(sign + kept);
    ScaledValue(whole, kept, Abs(val));
    LastDigit(val, whole);
  }

  lemma ScaledValue(whole: string, kept: string, n: nat)
    requires AllDigits(whole) && AllDigits(kept) && kept <= whole && whole != []
    requires Value(whole) == n && Value(kept) * Pow10(|whole| - |kept|) == n
    requires kept == StripTrailingZeros(whole) && (kept == whole <==> whole[|whole| - 1] != '0')
    ensures kept == [] ==> n == 0
    ensures n != 0 ==> (Value(kept) == n <==> whole[|whole| - 1] != '0')
    ensures n == 0 ==> kept == []
  {
    if kept != whole {
      MulMono(10, Pow10(|whole| - |kept|), Value(kept)) by {
        Pow10Monotone(1, |whole| - |kept|);
        assert Pow10(1) == 10;
      }
    }
    if kept == [] {
      EmptyValue();
    } else {
      StripEnds(whole);
      LastNonZero(kept);
    }
  }

  lemma {:induction false} StripEnds(s: string)
    ensures var kept := StripTrailingZeros(s); kept != [] ==> kept[|kept| - 1] != '0'
  {
    if s != [] && s[|s| - 1] == '0' {
      StripEnds(s[..|s| - 1]);
    }
  }

  lemma LastNonZero(s: string)
    requires AllDigits(s) && s != [] && s[|s| - 1] != '0'
    ensures Value(s) > 0
  {
  }

  lemma LastDigit(val: int, whole: string)
    requires AllDigits(whole) && whole != [] && Value(whole) == Abs(val)
    ensures whole[|whole| - 1] == '0' <==> val % 10 == 0
  {
    var last := whole[|whole| - 1];
    assert IsDigit(last);
    TensAndUnits(val, Value(whole[..|whole| - 1]), DigitValue(last));
  }

  lemma TensAndUnits(val: int, tens: int, units: int)
    requires Abs(val) == 10 * tens + units && 0 <= tens && 0 <= units < 10
    ensures units == 0 <==> val % 10 == 0
  {
    var rest := if 0 <= val || units == 0 then units else 10 - units;
    var q := if 0 <= val then tens else if units == 0 then -tens else -tens - 1;
    assert val == 10 * q + rest;
    assert val % 10 == rest;
  }

  /** Parsing the short form gives the number back exactly when it is printable
      and, without decimal places, does not end in a zero of its own. */
  lemma ShortRoundTripIff(val: int, precision: nat)
    ensures FromPrint(PrintShort(val, precision), precision) == Done(val)
            <==> precision < 100 && Printable(val, precision) && (0 < precision || val == 0 || val % 10 != 0)
  {
    hide PrintShort, FromPrint, Value, Digits;
    if precision >= MAX_PRECISION {
      TooPrecise(PrintShort(val, precision), precision);
    } else if !Printable(val, precision) {
      var front, fraction := ShortUnprintable(val, precision);
    } else if 0 < precision {
      var whole, kept := ShortForm(val, precision);
      ParseForm(val, val < 0, whole, kept, precision);
    } else {
      var kept := ShortInteger(val);
      ParseInteger(val, kept);
    }
  }

  lemma ParseInteger(val: int, kept: string)
    requires AllDigits(kept) && (kept == [] <==> val == 0)
    ensures FromPrint((if val < 0 then "-" else "") + kept, 0)
            == Done(if kept == [] then 0 else if val < 0 then -(Value(kept) as int) else Value(kept))
  {
    if kept == [] {
      assert "" + kept == "";
    } else {
      assert kept + "" == kept;
      assert Form(val < 0, kept, "") == (if val < 0 then "-" else "") + kept;
      ParseForm(val, val < 0, kept, "", 0);
      assert Pow10(0) == 1;
    }
  }

  lemma ShortUnprintable(val: int, precision: nat) returns (front: string, fraction: string)
    requires !Printable(val, precision)
    ensures front == "0" && Plain(fraction) && fraction != []
    ensures PrintShort(val, precision) == "0" + DELIM + fraction
    ensures FromPrint(PrintShort(val, precision), precision) == Throws
  {
    hide Print, StripTrailingZeros, FromPrint, Digits;
    var k := precision - 1 - |Digits(-val)|;
    var printed := UnprintableForm(val, precision);
    front, fraction := "0", StripTrailingZeros(printed);
    StripBehindSign(k, Digits(-val));
    ShortenFraction("0", printed);
    assert "0" + (DELIM + fraction) == "0" + DELIM + fraction;
    SignBehindDelimiterThrows(fraction, k, precision);
  }

  /** Trailing zeros behind a sign go; the sign stays. */
  lemma StripBehindSign(k: nat, digits: string)
    requires AllDigits(digits)
    ensures var s := Zeros(k) + ("-" + digits);
            && Plain(s) && Plain(StripTrailingZeros(s))
            && k < |StripTrailingZeros(s)| && StripTrailingZeros(s)[k] == '-'
  {
    hide StripTrailingZeros;
    var s := Zeros(k) + ("-" + digits);
    var front := Zeros(k) + "-";
    assert s == front + digits;
    assert front[|front| - 1] == '-';
    StripTrailing(front, digits);
    StripTrailing("", digits);
    var kept := StripTrailingZeros(digits);
    assert kept <= digits;
    assert StripTrailingZeros(s) == front + kept;
  }
}
