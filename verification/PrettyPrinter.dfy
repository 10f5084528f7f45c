/** Thousands separators (prettyPrint of sdk/src/factory/bigNum.ts). */
module PrettyPrinter {
  import opened Bn
  import opened Decimal
  import opened BigNum

  /** Spacers in front of every group of three, counted from the right. */
  function Grouped(s: string): string {
    if |s| <= 3 then s else Grouped(s[..|s| - 3]) + [SPACER] + s[|s| - 3..]
  }

  function RemoveSpacers(s: string): string {
    if s == [] then []
    else if s[0] == SPACER then RemoveSpacers(s[1..])
    else [s[0]] + RemoveSpacers(s[1..])
  }

  /** The `replace(c, '')` of a string: only its first occurrence goes. */
  function WithoutFirst(s: string, c: char): string {
    var i := IndexOf(s, c);
    if i == |s| then s else s[..i] + s[i + 1..]
  }

  /** The loop that splices a spacer in, three places further left each time. */
  method InsertSpacers(left: string) returns (formatted: string)
    ensures formatted == Grouped(left)
  {
    formatted := left;
    var index := |left| - 3;
    ghost var rest := "";
    assert left[..|left|] == left;
    while index >= 1
      invariant index <= |left| - 3 && 0 <= index + 3
      invariant formatted == left[..index + 3] + rest
      invariant Grouped(left) == Grouped(left[..index + 3]) + rest
      decreases index
    {
      ghost var front := left[..index + 3];
      assert front[..|front| - 3] == left[..index] && front[|front| - 3..] == left[index..index + 3];
      assert formatted[..index] == left[..index];
      assert formatted[index..] == left[index..index + 3] + rest;
      rest := [SPACER] + left[index..index + 3] + rest;
      formatted := formatted[..index] + [SPACER] + formatted[index..];
      index := index - 3;
    }
  }

  function Pretty(s: string): string {
    var parts := Split(s);
    var negative := '-' in parts.left;
    (if negative then "-" else "")
    + Grouped(if negative then WithoutFirst(parts.left, '-') else parts.left)
    + (if RightOf(parts) == [] then "" else DELIM + RightOf(parts))
  }

  method PrettyPrint(val: int, precision: nat) returns (pretty: string)
    ensures pretty == Pretty(PrintShort(val, precision))
  {
    var parts := Split(PrintShort(val, precision));
    var formattedLeftSide := parts.left;
    var isNeg := '-' in formattedLeftSide;
    if isNeg {
      formattedLeftSide := WithoutFirst(formattedLeftSide, '-');
    }
    formattedLeftSide := InsertSpacers(formattedLeftSide);
    pretty := (if isNeg then "-" else "") + formattedLeftSide
              + (if RightOf(parts) == [] then "" else DELIM + RightOf(parts));
  }

  // ------------------------------------------------------- what grouping does

  lemma {:induction false} RemoveFromAppend(a: string, b: string)
    ensures RemoveSpacers(a + b) == RemoveSpacers(a) + RemoveSpacers(b)
  {
    if a == [] {
      assert a + b == b;
    } else {
      assert (a + b)[1..] == a[1..] + b;
      RemoveFromAppend(a[1..], b);
    }
  }

  lemma {:induction false} NothingToRemove(s: string)
    requires forall i :: 0 <= i < |s| ==> s[i] != SPACER
    ensures RemoveSpacers(s) == s
  {
    if s != [] {
      NothingToRemove(s[1..]);
    }
  }

  /** Grouping only adds spacers. */
  lemma {:induction false} GroupedKeepsText(s: string)
    requires forall i :: 0 <= i < |s| ==> s[i] != SPACER
    ensures RemoveSpacers(Grouped(s)) == s
  {
    if |s| <= 3 {
      NothingToRemove(s);
    } else {
      var front, last := s[..|s| - 3], s[|s| - 3..];
      GroupedKeepsText(front);
      RemoveFromAppend(Grouped(front) + [SPACER], last);
      RemoveFromAppend(Grouped(front), [SPACER]);
      NothingToRemove(last);
    }
  }

  /** The spacers stand exactly at every fourth place from the right, and the
      leftmost group holds between one and three characters. */
  lemma {:induction false} GroupsOfThree(s: string)
    requires s != [] && forall i :: 0 <= i < |s| ==> s[i] != SPACER
    ensures |Grouped(s)| == |s| + (|s| - 1) / 3
    ensures forall i :: 0 <= i < |Grouped(s)| ==> (Grouped(s)[|Grouped(s)| - 1 - i] == SPACER <==> i % 4 == 3)
    ensures Grouped(s)[0] != SPACER
  {
    if |s| > 3 {
      var front, last := s[..|s| - 3], s[|s| - 3..];
      GroupsOfThree(front);
      GroupAppended(Grouped(front), last);
    }
  }

  /** One more group behind text that is already in groups. */
  lemma GroupAppended(f: string, last: string)
    requires |last| == 3 && forall i :: 0 <= i < 3 ==> last[i] != SPACER
    requires forall i :: 0 <= i < |f| ==> (f[|f| - 1 - i] == SPACER <==> i % 4 == 3)
    ensures var g := f + [SPACER] + last;
            forall i :: 0 <= i < |g| ==> (g[|g| - 1 - i] == SPACER <==> i % 4 == 3)
  {
    var g := f + [SPACER] + last;
    forall i | 0 <= i < |g|
      ensures g[|g| - 1 - i] == SPACER <==> i % 4 == 3
    {
      if i < 3 {
        assert g[|g| - 1 - i] == last[2 - i];
      } else if i == 3 {
        assert g[|g| - 1 - i] == SPACER;
      } else {
        assert g[|g| - 1 - i] == f[|f| - 1 - (i - 4)];
        assert (i - 4) % 4 == i % 4;
      }
    }
  }

  // ------------------------------------------------------- pretty printing

  /** The short form is a sign, digits, and plain text behind the delimiter. */
  lemma ShortShape(val: int, precision: nat) returns (negative: bool, whole: string, tail: string)
    ensures AllDigits(whole) && Plain(tail)
    ensures PrintShort(val, precision) == Form(negative, whole, tail)
    ensures negative ==> val < 0
  {
    hide PrintShort;
    if !Printable(val, precision) {
      negative := false;
      whole, tail := ShortUnprintable(val, precision);
      assert "" + "0" + (DELIM + tail) == "0" + DELIM + tail;
    } else if 0 < precision {
      negative := val < 0;
      whole, tail := ShortForm(val, precision);
    } else {
      negative, tail := val < 0, "";
      whole := ShortInteger(val);
      var sign := if val < 0 then "-" else "";
      assert sign + whole + "" == sign + whole;
    }
  }

  /** Pretty printing a signed form groups its integer part and nothing else. */
  lemma PrettyForm(negative: bool, whole: string, tail: string)
    requires AllDigits(whole) && Plain(tail)
    ensures Pretty(Form(negative, whole, tail))
            == (if negative then "-" else "") + Grouped(whole) + (if tail == [] then "" else DELIM + tail)
  {
    hide Grouped;
    var front := (if negative then "-" else "") + whole;
    SplitForm(front, tail);
    if negative {
      assert front[0] == '-';
      assert front[..0] + front[0 + 1..] == whole;
    } else {
      assert front == whole && '-' !in whole;
    }
  }

  /** Without its spacers the pretty form is the short form. */
  lemma PrettyKeepsText(val: int, precision: nat)
    ensures RemoveSpacers(Pretty(PrintShort(val, precision))) == PrintShort(val, precision)
  {
    hide PrintShort, Grouped, Pretty;
    var negative, whole, tail := ShortShape(val, precision);
    PrettyForm(negative, whole, tail);
    var sign, rest := if negative then "-" else "", if tail == [] then "" else DELIM + tail;
    GroupedKeepsText(whole);
    RemoveFromAppend(sign + Grouped(whole), rest);
    RemoveFromAppend(sign, Grouped(whole));
    NothingToRemove(sign);
    NothingToRemove(rest);
  }

  /** Parsing the pretty form without its spacers gives the number back in the same
      cases as parsing the short form. */
  lemma PrettyRoundTripIff(val: int, precision: nat)
    ensures FromPrint(RemoveSpacers(Pretty(PrintShort(val, precision))), precision) == Done(val)
            <==> precision < 100 && Printable(val, precision) && (0 < precision || val == 0 || val % 10 != 0)
  {
    PrettyKeepsText(val, precision);
    ShortRoundTripIff(val, precision);
  }

  /** Ten thousand, without decimal places, prints as one. */
  lemma ShortLosesZeros()
    ensures PrintShort(10_000, 0) == "1"
    ensures FromPrint(PrintShort(10_000, 0), 0) != Done(10_000)
  {
    hide Print, FromPrint, StripTrailingZeros;
    TenThousand();
    StripTenThousand();
    ShortRoundTripIff(10_000, 0);
  }

  lemma StripTenThousand()
    ensures StripTrailingZeros("10000") == "1"
  {
    assert "1"[|"1"| - 1] != '0';
    assert "1" + "0000" == "10000";
    StripTrailing("1", Zeros(4));
    assert Zeros(4) == "0000";
    StripOnlyZeros(4);
  }

  lemma StripOnlyZeros(n: nat)
    ensures StripTrailingZeros(Zeros(n)) == []
  {
    if n != 0 {
      assert Zeros(n)[..n - 1] == Zeros(n - 1);
      StripOnlyZeros(n - 1);
    }
  }

  lemma TenThousand()
    ensures Print(10_000, 0) == "10000"
  {
    hide StripLeadingZeros;
    assert Digits(100) == "100";
    assert Digits(10_000) == "10000";
    assert Zeros(0) + "10000" == "10000" + "";
    DelimitAt("10000", 0, "10000", "");
    assert Delimit("10000", 0) == "10000.";
    StripLeading("", "10000.");
    assert "" + "10000." == "10000.";
    assert StripLeadingZeros("") == "" by {
      StripZeros(0);
      assert Zeros(0) == "";
    }
  }

  /** Minus five thousandths print with the sign behind the delimiter. */
  lemma SignCanLandBehindDelimiter()
    ensures Print(-5, 3) == "0.0-5"
  {
    hide Print;
    var fraction := UnprintableForm(-5, 3);
    assert Digits(5) == "5";
    assert fraction == "0-5";
  }
}
