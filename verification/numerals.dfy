/**
  Decimal text of integers and the ways the dynamic languages read numbers
  out of text:

  - the rendering every implementation uses for page numbers on the pdftk
    command line (`strconv.Itoa`, `String.valueOf`, `to_string`, string
    interpolation) and the integer text the pdftk vector parses back;
  - Ruby's `String#to_i`: leading blanks, an optional sign, and the digits
    that follow, where a single '_' may separate two digits; the rest is
    ignored;
  - numeric strings as PHP 8's `is_numeric` and JavaScript's `Number`
    accept them: blanks around an optional sign, digits with an optional
    fraction, and an optional exponent.
 */
module Numerals {
  import opened Base

  predicate IsDigit(c: char) {
    '0' <= c <= '9'
  }

  predicate AllDigits(s: string) {
    forall k :: 0 <= k < |s| ==> IsDigit(s[k])
  }

  function DigitValue(c: char): nat
    requires IsDigit(c)
  {
    c as int - '0' as int
  }

  function DigitChar(d: nat): (c: char)
    requires d < 10
    ensures IsDigit(c) && DigitValue(c) == d
  {
    ('0' as int + d) as char
  }

  /** Decimal digits of a natural number, without leading zeros. */
  function Digits(n: nat): (s: string)
    ensures |s| > 0 && AllDigits(s)
    ensures n > 0 ==> s[0] != '0'
  {
    if n < 10 then [DigitChar(n)] else Digits(n / 10) + [DigitChar(n % 10)]
  }

  /** Value of a string of digits, most significant first. */
  function DigitsValue(s: string): nat
    requires AllDigits(s)
  {
    if |s| == 0 then 0 else DigitsValue(s[..|s| - 1]) * 10 + DigitValue(s[|s| - 1])
  }

  /** Reading back the digits of `n` gives `n`. */
  lemma {:induction false} DigitsRoundTrip(n: nat)
    ensures DigitsValue(Digits(n)) == n
  {
    if n >= 10 {
      var s := Digits(n);
      assert s[..|s| - 1] == Digits(n / 10);
      DigitsRoundTrip(n / 10);
    }
  }

  /** Decimal text of an integer, with a '-' for negative values. */
  function Decimal(i: int): string {
    if i < 0 then "-" + Digits(-i) else Digits(i)
  }

  /** An optional sign followed by at least one digit. */
  predicate IsIntegerText(s: string) {
    if |s| > 0 && (s[0] == '-' || s[0] == '+') then |s| > 1 && AllDigits(s[1..])
    else |s| > 0 && AllDigits(s)
  }

  function ParseInteger(s: string): int
    requires IsIntegerText(s)
  {
    if s[0] == '-' then -(DigitsValue(s[1..]) as int)
    else if s[0] == '+' then DigitsValue(s[1..])
    else DigitsValue(s)
  }

  /** Rendering then parsing is the identity, and rendering yields integer text. */
  lemma DecimalRoundTrip(i: int)
    ensures IsIntegerText(Decimal(i))
    ensures ParseInteger(Decimal(i)) == i
  {
    if i < 0 {
      assert Decimal(i)[1..] == Digits(-i);
      DigitsRoundTrip(-i);
    } else {
      DigitsRoundTrip(i);
    }
  }

  /** Rendering is injective: distinct page numbers give distinct arguments. */
  lemma DecimalInjective(i: int, j: int)
    ensures Decimal(i) == Decimal(j) ==> i == j
  {
    DecimalRoundTrip(i);
    DecimalRoundTrip(j);
  }

  /** Decimal text never contains a blank, so it survives a split on whitespace. */
  lemma DecimalHasNoBlank(i: int)
    ensures |Decimal(i)| > 0
    ensures forall k :: 0 <= k < |Decimal(i)| ==> Decimal(i)[k] != ' '
  {
    if i < 0 {
      var d := Digits(-i);
      forall k | 0 <= k < |Decimal(i)| ensures Decimal(i)[k] != ' ' {
        if k > 0 {
          assert Decimal(i)[k] == d[k - 1];
        }
      }
    }
  }

  /** The longest prefix of `s` made of digits. */
  function DigitPrefix(s: string): (r: string)
    ensures |r| <= |s| && r == s[..|r|] && AllDigits(r)
    ensures |r| < |s| ==> !IsDigit(s[|r|])
  {
    if |s| == 0 || !IsDigit(s[0]) then "" else [s[0]] + DigitPrefix(s[1..])
  }

  lemma {:induction false} DigitPrefixAll(s: string)
    requires AllDigits(s)
    ensures DigitPrefix(s) == s
    decreases |s|
  {
    if |s| > 0 {
      DigitPrefixAll(s[1..]);
      assert [s[0]] + s[1..] == s;
    }
  }

  /** The blanks C's `isspace` accepts: space, tab, newline, vertical tab, form feed, carriage return. */
  predicate IsBlank(c: char) {
    c == ' ' || '\t' <= c <= '\r'
  }

  predicate AllBlank(s: string) {
    forall k :: 0 <= k < |s| ==> IsBlank(s[k])
  }

  /** `s` without its leading blanks. */
  function TrimStart(s: string): (r: string)
    ensures |r| <= |s|
  {
    if |s| > 0 && IsBlank(s[0]) then TrimStart(s[1..]) else s
  }

  /** `TrimStart` drops exactly the leading blanks: what it keeps is a suffix that starts with a non-blank. */
  lemma {:induction false} TrimStartStrips(s: string)
    ensures var r := TrimStart(s);
      r == s[|s| - |r|..] && AllBlank(s[..|s| - |r|]) && (|r| > 0 ==> !IsBlank(r[0]))
    decreases |s|
  {
    if |s| > 0 && IsBlank(s[0]) {
      TrimStartStrips(s[1..]);
      var r := TrimStart(s);
      assert s[1..][|s| - 1 - |r|..] == s[|s| - |r|..];
    }
  }

  /** `s` without its trailing blanks. */
  function TrimEnd(s: string): (r: string)
    ensures |r| <= |s|
  {
    if |s| > 0 && IsBlank(s[|s| - 1]) then TrimEnd(s[..|s| - 1]) else s
  }

  /** `TrimEnd` drops exactly the trailing blanks: what it keeps is a prefix that ends with a non-blank. */
  lemma {:induction false} TrimEndStrips(s: string)
    ensures var r := TrimEnd(s);
      r == s[..|r|] && AllBlank(s[|r|..]) && (|r| > 0 ==> !IsBlank(r[|r| - 1]))
    decreases |s|
  {
    if |s| > 0 && IsBlank(s[|s| - 1]) {
      var n := |s| - 1;
      TrimEndStrips(s[..n]);
      var r := TrimEnd(s);
      assert s[..n][..|r|] == s[..|r|];
      assert forall k :: 0 <= k < n - |r| ==> s[|r|..][k] == s[..n][|r|..][k];
    }
  }

  /** An optional leading sign: whether it is '-', and the text after it. */
  function SplitSign(s: string): (r: (bool, string))
    ensures r.0 ==> |s| > 0 && s[0] == '-'
    ensures r.1 == (if |s| > 0 && (s[0] == '-' || s[0] == '+') then s[1..] else s)
  {
    if |s| > 0 && (s[0] == '-' || s[0] == '+') then (s[0] == '-', s[1..]) else (false, s)
  }

  // ------------------------------------------------------------------ Ruby's to_i

  /**
    The leading digits of `s` where a single '_' may stand between two
    digits, with the separators dropped: "1_000x" reads "1000", "1__0" reads "1".
   */
  function UnderscoredDigits(s: string): (r: string)
    ensures AllDigits(r) && |r| <= |s|
    ensures |r| > 0 <==> |s| > 0 && IsDigit(s[0])
  {
    if |s| == 0 || !IsDigit(s[0]) then ""
    else if |s| >= 3 && s[1] == '_' && IsDigit(s[2]) then [s[0]] + UnderscoredDigits(s[2..])
    else [s[0]] + UnderscoredDigits(s[1..])
  }

  /**
    Ruby's `String#to_i`: leading blanks are skipped, then an optional sign
    and the digits that follow it are read; 0 when there are none.
   */
  function LeadingInteger(s: string): int {
    var sign := SplitSign(TrimStart(s));
    var v := DigitsValue(UnderscoredDigits(sign.1)) as int;
    if sign.0 then -v else v
  }

  lemma {:induction false} UnderscoredDigitsAll(s: string)
    requires AllDigits(s)
    ensures UnderscoredDigits(s) == s
    decreases |s|
  {
    if |s| > 0 {
      UnderscoredDigitsAll(s[1..]);
      assert [s[0]] + s[1..] == s;
    }
  }

  /** On integer text, `to_i` reads the whole string. */
  lemma LeadingIntegerOfIntegerText(s: string)
    requires IsIntegerText(s)
    ensures LeadingInteger(s) == ParseInteger(s)
  {
    assert TrimStart(s) == s;
    if s[0] == '-' || s[0] == '+' {
      UnderscoredDigitsAll(s[1..]);
    } else {
      UnderscoredDigitsAll(s);
    }
  }

  /** Where the digits of a run end: the text after them neither starts with a digit nor with '_' and a digit. */
  predicate EndsDigits(tail: string) {
    |tail| == 0 || (!IsDigit(tail[0]) && !(tail[0] == '_' && |tail| >= 2 && IsDigit(tail[1])))
  }

  /** `to_i` ignores whatever follows the leading integer, once the digit run has ended. */
  lemma LeadingIntegerIgnoresTail(i: nat, tail: string)
    requires EndsDigits(tail)
    ensures LeadingInteger(Digits(i) + tail) == i
  {
    var d := Digits(i);
    var s := d + tail;
    assert s[0] == d[0];
    assert TrimStart(s) == s;
    UnderscoredDigitsOfDigits(d, tail);
    DigitsRoundTrip(i);
  }

  lemma {:induction false} UnderscoredDigitsOfDigits(d: string, tail: string)
    requires |d| > 0 && AllDigits(d) && EndsDigits(tail)
    ensures UnderscoredDigits(d + tail) == d
    decreases |d|
  {
    var s := d + tail;
    if |d| == 1 {
      assert s[1..] == tail;
      assert [d[0]] == d;
    } else {
      assert s[1..] == d[1..] + tail;
      assert s[1] == d[1];
      UnderscoredDigitsOfDigits(d[1..], tail);
      assert [d[0]] + d[1..] == d;
    }
  }

  /** Leading blanks do not change what `to_i` reads. */
  lemma LeadingIntegerSkipsBlanks(b: string, s: string)
    requires AllBlank(b)
    ensures LeadingInteger(b + s) == LeadingInteger(s)
  {
    TrimStartBlanks(b, s);
  }

  lemma {:induction false} TrimStartBlanks(b: string, s: string)
    requires AllBlank(b)
    ensures TrimStart(b + s) == TrimStart(s)
    decreases |b|
  {
    if |b| > 0 {
      assert (b + s)[1..] == b[1..] + s;
      TrimStartBlanks(b[1..], s);
    } else {
      assert b + s == s;
    }
  }

  /** A '_' between digits is read through: "12_3" is 123, while "12__3" stops at 12. */
  lemma LeadingIntegerSeparators()
    ensures LeadingInteger("12_3") == 123
    ensures LeadingInteger("12__3") == 12
  {
    SeparatorJoins();
    DoubleSeparatorStops();
  }

  lemma SeparatorJoins()
    ensures LeadingInteger("12_3") == 123
  {
    var s := "12_3";
    assert TrimStart(s) == s;
    assert SplitSign(s).1 == s;
    assert UnderscoredDigits("") == "";
    assert UnderscoredDigits("3") == "3";
    assert "2_3"[2..] == "3";
    assert UnderscoredDigits("2_3") == "23";
    assert s[1..] == "2_3";
    assert UnderscoredDigits(s) == "123";
    ThreeDigits('1', '2', '3');
  }

  lemma ThreeDigits(a: char, b: char, c: char)
    requires IsDigit(a) && IsDigit(b) && IsDigit(c)
    ensures DigitsValue([a, b, c]) == DigitValue(a) * 100 + DigitValue(b) * 10 + DigitValue(c)
  {
    assert [a][..0] == [];
    assert DigitsValue([a]) == DigitValue(a);
    assert [a, b][..1] == [a];
    assert DigitsValue([a, b]) == DigitValue(a) * 10 + DigitValue(b);
    assert [a, b, c][..2] == [a, b];
  }

  lemma DoubleSeparatorStops()
    ensures LeadingInteger("12__3") == 12
  {
    var s := "12__3";
    assert TrimStart(s) == s;
    assert SplitSign(s).1 == s;
    assert UnderscoredDigits("__3") == "";
    assert "2__3"[1..] == "__3";
    assert UnderscoredDigits("2__3") == "2";
    assert s[1..] == "2__3";
    assert UnderscoredDigits(s) == "12";
    assert "12"[..1] == "1";
    assert "1"[..0] == "";
  }

  // ------------------------------------------------------------------ numeric strings

  /** `a × 10^k`. */
  function Shift(a: nat, k: nat): nat {
    if k == 0 then a else 10 * Shift(a, k - 1)
  }

  /** `a ÷ 10^k`, rounded down: the last `k` digits dropped. */
  function Unshift(a: nat, k: nat): nat {
    if k == 0 then a else Unshift(a / 10, k - 1)
  }

  /** The last `k` digits of `a` are zeros. */
  predicate ZeroTail(a: nat, k: nat) {
    k == 0 || (a % 10 == 0 && ZeroTail(a / 10, k - 1))
  }

  /** Dropping the `k` zeros that `Shift` appended gives the number back. */
  lemma {:induction false} ShiftRoundTrip(a: nat, k: nat)
    ensures ZeroTail(Shift(a, k), k) && Unshift(Shift(a, k), k) == a
  {
    if k > 0 {
      ShiftRoundTrip(a, k - 1);
      assert Shift(a, k) / 10 == Shift(a, k - 1);
    }
  }

  /** A decimal number `±mantissa × 10^scale`, as written. */
  datatype Numeral = Numeral(negative: bool, mantissa: nat, scale: int)

  /** `digits ['.' digits]` at the front of `s`: the whole part, the fraction, and what follows. */
  function SplitMantissa(s: string): (r: (string, string, string))
    ensures AllDigits(r.0) && AllDigits(r.1)
    ensures r.0 == DigitPrefix(s)
  {
    var w := DigitPrefix(s);
    var rest := s[|w|..];
    if |rest| > 0 && rest[0] == '.' then
      var f := DigitPrefix(rest[1..]);
      (w, f, rest[1..][|f|..])
    else (w, "", rest)
  }

  /** Nothing, or `e`/`E`, an optional sign and at least one digit, with nothing after them. */
  function ParseExponent(s: string): (r: Option<int>)
    ensures s == "" ==> r == Some(0)
  {
    if |s| == 0 then Some(0)
    else if s[0] != 'e' && s[0] != 'E' then None
    else
      var sign := SplitSign(s[1..]);
      if |sign.1| > 0 && AllDigits(sign.1) then Some(if sign.0 then -(DigitsValue(sign.1) as int) else DigitsValue(sign.1)) else None
  }

  /**
    A numeric string: blanks around an optional sign, digits with an
    optional '.' and fraction (at least one digit in all), and an optional
    exponent. `None` when the text is anything else.
   */
  function ParseNumeral(s: string): (r: Option<Numeral>)
  {
    var sign := SplitSign(TrimEnd(TrimStart(s)));
    var m := SplitMantissa(sign.1);
    var e := ParseExponent(m.2);
    if |m.0| + |m.1| == 0 || e.None? then None
    else Some(Numeral(sign.0, Shift(DigitsValue(m.0), |m.1|) + DigitsValue(m.1), e.value - |m.1|))
  }

  /** The numeral's value is an integer. */
  predicate Integral(n: Numeral) {
    n.scale >= 0 || ZeroTail(n.mantissa, -n.scale)
  }

  /** The value rounded toward zero, as PHP's `(int)` and the integer part of a number. */
  function Truncate(n: Numeral): int {
    var m := if n.scale >= 0 then Shift(n.mantissa, n.scale) else Unshift(n.mantissa, -n.scale);
    if n.negative then -m else m
  }

  /** Integer text is a numeric string whose value is the integer it writes. */
  lemma NumeralOfIntegerText(s: string)
    requires IsIntegerText(s)
    ensures ParseNumeral(s).Some?
    ensures Integral(ParseNumeral(s).value) && Truncate(ParseNumeral(s).value) == ParseInteger(s)
  {
    assert TrimStart(s) == s;
    assert TrimEnd(s) == s;
    var u := SplitSign(s).1;
    assert AllDigits(u) && |u| > 0;
    DigitPrefixAll(u);
    assert u[|u|..] == "";
  }

  /** `is_numeric` and `(int)` on the forms beyond integer text. */
  lemma NumeralForms()
    ensures ParseNumeral(" 12") == Some(Numeral(false, 12, 0))
    ensures ParseNumeral("1.5") == Some(Numeral(false, 15, -1)) && Truncate(Numeral(false, 15, -1)) == 1
    ensures ParseNumeral("1e3") == Some(Numeral(false, 1, 3)) && Truncate(Numeral(false, 1, 3)) == 1000
    ensures ParseNumeral("1.") == Some(Numeral(false, 1, 0))
    ensures ParseNumeral("1e") == None && ParseNumeral(".") == None && ParseNumeral("") == None
  {
    NumeralBlank();
    NumeralFraction();
    NumeralExponent();
    NumeralTrailingDot();
    NumeralRejects();
  }

  lemma NumeralBlank()
    ensures ParseNumeral(" 12") == Some(Numeral(false, 12, 0))
  {
    assert TrimStart(" 12") == "12" by { assert " 12"[1..] == "12"; }
    assert TrimEnd("12") == "12";
    DigitPrefixAll("12");
    assert "12"[2..] == "";
    assert DigitsValue("12") == 12 by { assert "12"[..1] == "1"; }
  }

  lemma NumeralFraction()
    ensures ParseNumeral("1.5") == Some(Numeral(false, 15, -1))
    ensures Truncate(Numeral(false, 15, -1)) == 1
  {
    assert TrimStart("1.5") == "1.5" && TrimEnd("1.5") == "1.5";
    assert DigitPrefix("1.5") == "1" by { assert "1.5"[1..] == ".5"; }
    assert "1.5"[1..] == ".5" && ".5"[1..] == "5";
    DigitPrefixAll("5");
    assert "5"[1..] == "";
    assert DigitsValue("1") == 1 && DigitsValue("5") == 5 by {
      assert "1"[..0] == "" && "5"[..0] == "";
    }
  }

  lemma NumeralExponent()
    ensures ParseNumeral("1e3") == Some(Numeral(false, 1, 3))
    ensures Truncate(Numeral(false, 1, 3)) == 1000
  {
    assert TrimStart("1e3") == "1e3" && TrimEnd("1e3") == "1e3";
    assert DigitPrefix("1e3") == "1" by { assert "1e3"[1..] == "e3"; }
    assert "1e3"[1..] == "e3" && "e3"[1..] == "3";
    assert DigitsValue("1") == 1 && DigitsValue("3") == 3 by {
      assert "1"[..0] == "" && "3"[..0] == "";
    }
    assert DigitPrefix("") == "";
  }

  lemma NumeralTrailingDot()
    ensures ParseNumeral("1.") == Some(Numeral(false, 1, 0))
  {
    assert TrimStart("1.") == "1." && TrimEnd("1.") == "1.";
    assert DigitPrefix("1.") == "1" by { assert "1."[1..] == "."; }
    assert "1."[1..] == "." && "."[1..] == "";
    assert DigitsValue("1") == 1 by { assert "1"[..0] == ""; }
  }

  lemma NumeralRejects()
    ensures ParseNumeral("1e") == None && ParseNumeral(".") == None && ParseNumeral("") == None
  {
    NoExponentDigits();
    LoneDot();
  }

  lemma NoExponentDigits()
    ensures ParseNumeral("1e") == None
  {
    var s := "1e";
    assert TrimStart(s) == s;
    assert TrimEnd(s) == s;
    assert SplitSign(s).1 == s;
    assert s[1..] == "e";
    assert DigitPrefix("e") == "";
    assert DigitPrefix(s) == "1";
    assert SplitMantissa(s).2 == "e";
    assert "e"[1..] == "";
    assert ParseExponent("e") == None;
  }

  lemma LoneDot()
    ensures ParseNumeral(".") == None
  {
    var s := ".";
    assert TrimStart(s) == s;
    assert TrimEnd(s) == s;
    assert SplitSign(s).1 == s;
    assert DigitPrefix(s) == "";
    assert s[0..] == s && s[1..] == "";
    assert DigitPrefix("") == "";
    assert SplitMantissa(s).1 == "";
  }
}
