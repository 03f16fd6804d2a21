/** Decimal numerals, as Python's `str(int)` and the `.1f` format
    specification write them for values held as whole tenths. */
module Numerals {
  import opened Wrappers

  predicate IsDigit(c: char)
  {
    '0' <= c <= '9'
  }

  predicate AllDigits(s: string)
  {
    forall i :: 0 <= i < |s| ==> IsDigit(s[i])
  }

  /** A numeral as `str(n)` writes it: at least one digit, no leading zero. */
  predicate Canonical(s: string)
  {
    |s| >= 1 && AllDigits(s) && (s[0] == '0' ==> |s| == 1)
  }

  function DigitChar(d: nat): (c: char)
    requires d < 10
    ensures IsDigit(c) && DigitValue(c) == d
  {
    (48 + d) as char
  }

  function DigitValue(c: char): nat
    requires IsDigit(c)
  {
    c as int - 48
  }

  function Abs(x: int): nat
  {
    if x < 0 then -x else x
  }

  function Pow10(k: nat): (p: nat)
    ensures p >= 1
  {
    if k == 0 then 1 else 10 * Pow10(k - 1)
  }

  /** The decimal numeral of `n`. */
  function NatToString(n: nat): (s: string)
    ensures Canonical(s)
    decreases n
  {
    if n < 10 then [DigitChar(n)] else NatToString(n / 10) + [DigitChar(n % 10)]
  }

  /** The value of a string of decimal digits (the empty string reads as 0). */
  function StringToNat(s: string): nat
    requires AllDigits(s)
    decreases |s|
  {
    if |s| == 0 then 0 else StringToNat(s[..|s| - 1]) * 10 + DigitValue(s[|s| - 1])
  }

  /** Reading a written numeral gives back the number. */
  lemma {:induction false} NatToStringRoundTrip(n: nat)
    ensures StringToNat(NatToString(n)) == n
    decreases n
  {
    if n >= 10 {
      var p := NatToString(n / 10);
      var s := p + [DigitChar(n % 10)];
      assert s[..|s| - 1] == p;
      NatToStringRoundTrip(n / 10);
    }
  }

  lemma {:induction false} LeadingNonZeroIsPositive(s: string)
    requires Canonical(s) && s[0] != '0'
    ensures StringToNat(s) > 0
    decreases |s|
  {
    if |s| > 1 {
      var p := s[..|s| - 1];
      assert p[0] == s[0];
      LeadingNonZeroIsPositive(p);
    }
  }

  /** Every canonical numeral is the way its own value is written. */
  lemma {:induction false} StringToNatRoundTrip(s: string)
    requires Canonical(s)
    ensures NatToString(StringToNat(s)) == s
    decreases |s|
  {
    if |s| > 1 {
      var p := s[..|s| - 1];
      var d := DigitValue(s[|s| - 1]);
      assert p[0] == s[0];
      LeadingNonZeroIsPositive(p);
      StringToNatRoundTrip(p);
      var n := StringToNat(s);
      assert n == StringToNat(p) * 10 + d;
      assert n / 10 == StringToNat(p) && n % 10 == d;
      assert DigitChar(d) == s[|s| - 1];
      assert s == p + [s[|s| - 1]];
    }
  }

  /** A numeral has at most `k` digits exactly when the number is below 10^k. */
  lemma {:induction false} NumeralLength(n: nat, k: nat)
    requires k >= 1
    ensures |NatToString(n)| <= k <==> n < Pow10(k)
    decreases n
  {
    if n >= 10 {
      if k == 1 {
        assert |NatToString(n)| == |NatToString(n / 10)| + 1;
      } else {
        NumeralLength(n / 10, k - 1);
        assert Pow10(k) == 10 * Pow10(k - 1);
        assert n / 10 < Pow10(k - 1) <==> n < Pow10(k);
      }
    } else {
      assert Pow10(k) == 10 * Pow10(k - 1);
    }
  }

  /** A one-decimal value held as `tenths`, written as `f"{value:.1f}"`
      writes it: an optional minus sign, the whole part, a point, one digit. */
  function FormatTenths(tenths: int): (s: string)
    ensures |s| >= 3 && s[|s| - 2] == '.' && IsDigit(s[|s| - 1])
    ensures IsDigit(s[0]) <==> tenths >= 0
    ensures ParseTenths(s) == Some(tenths)
  {
    var whole := NatToString(Abs(tenths) / 10);
    var s := (if tenths < 0 then "-" else "") + whole + "." + [DigitChar(Abs(tenths) % 10)];
    FormatTenthsParses(tenths, whole, s);
    s
  }

  /** Reads back what `FormatTenths` writes; `None` for anything else. */
  function ParseTenths(s: string): Option<int>
  {
    if |s| < 3 || s[|s| - 2] != '.' || !IsDigit(s[|s| - 1]) then None
    else
      var head := s[..|s| - 2];
      var negative := head[0] == '-';
      var whole := if negative then head[1..] else head;
      if !Canonical(whole) then None
      else
        var magnitude := StringToNat(whole) * 10 + DigitValue(s[|s| - 1]);
        if negative && magnitude == 0 then None
        else Some(if negative then -magnitude else magnitude)
  }

  lemma FormatTenthsParses(tenths: int, whole: string, s: string)
    requires whole == NatToString(Abs(tenths) / 10)
    requires s == (if tenths < 0 then "-" else "") + whole + "." + [DigitChar(Abs(tenths) % 10)]
    ensures ParseTenths(s) == Some(tenths)
  {
    NatToStringRoundTrip(Abs(tenths) / 10);
    var head := s[..|s| - 2];
    if tenths < 0 {
      assert head == "-" + whole;
      assert head[1..] == whole;
    } else {
      assert head == whole;
    }
  }

  /** The format is injective: distinct values never print alike. */
  lemma FormatTenthsInjective(a: int, b: int)
    requires FormatTenths(a) == FormatTenths(b)
    ensures a == b
  {
    assert ParseTenths(FormatTenths(a)) == Some(a);
  }

  /** Every string the parser accepts is the formatted value it denotes. */
  lemma ParseTenthsOnlyFormats(s: string)
    requires ParseTenths(s).Some?
    ensures FormatTenths(ParseTenths(s).value) == s
  {
    var head := s[..|s| - 2];
    var last := s[|s| - 1];
    var negative := head[0] == '-';
    var whole := if negative then head[1..] else head;
    assert s == head + "." + [last];
    assert head == (if negative then "-" else "") + whole;
    RebuildFormat(ParseTenths(s).value, negative, whole, last, s);
  }

  /** The pieces the parser finds put back together as `FormatTenths` does. */
  lemma RebuildFormat(t: int, negative: bool, whole: string, last: char, s: string)
    requires Canonical(whole) && IsDigit(last)
    requires s == (if negative then "-" else "") + whole + "." + [last]
    requires var m := StringToNat(whole) * 10 + DigitValue(last);
      !(negative && m == 0) && t == (if negative then -m else m)
    ensures FormatTenths(t) == s
  {
    DivModTen(StringToNat(whole), DigitValue(last));
    StringToNatRoundTrip(whole);
    assert Abs(t) / 10 == StringToNat(whole) && Abs(t) % 10 == DigitValue(last);
    assert DigitChar(Abs(t) % 10) == last;
    FormatFromParts(t, whole, last, s);
  }

  lemma FormatFromParts(t: int, whole: string, last: char, s: string)
    requires NatToString(Abs(t) / 10) == whole && Abs(t) % 10 < 10 && DigitChar(Abs(t) % 10) == last
    requires s == (if t < 0 then "-" else "") + whole + "." + [last]
    ensures FormatTenths(t) == s
  {
  }

  /** The numerals of a few small numbers, spelled out. */
  lemma SmallNumerals()
    ensures NatToString(0) == "0" && NatToString(1) == "1" && NatToString(9) == "9"
    ensures NatToString(10) == "10" && NatToString(99) == "99" && NatToString(100) == "100"
    ensures DigitChar(0) == '0' && DigitChar(1) == '1' && DigitChar(9) == '9'
  {
    assert NatToString(10) == NatToString(1) + [DigitChar(0)];
    assert NatToString(99) == NatToString(9) + [DigitChar(9)];
    assert NatToString(100) == NatToString(10) + [DigitChar(0)];
  }

  lemma DivModTen(q: nat, d: nat)
    requires d < 10
    ensures (q * 10 + d) / 10 == q && (q * 10 + d) % 10 == d
  {
  }
}
