/** Decimal digit strings and their exact values. */
module Numerals {
  import opened Text

  function DigitValue(c: char): (d: nat)
    requires IsDigit(c)
    ensures d < 10
  {
    (c as int - '0' as int) as nat
  }

  function DigitChar(d: nat): (c: char)
    requires d < 10
    ensures IsDigit(c) && DigitValue(c) == d
  {
    ('0' as int + d) as char
  }

  /** The value of a string of decimal digits, most significant first; "" is 0. */
  function NatValue(s: string): nat
    requires AllDigits(s)
  {
    if s == [] then 0 else NatValue(s[..|s| - 1]) * 10 + DigitValue(s[|s| - 1])
  }

  function Pow10(n: nat): (r: nat)
    ensures r >= 1
  {
    if n == 0 then 1 else 10 * Pow10(n - 1)
  }

  /** The digits after a decimal point: "25" stands for 25/100. */
  function FractionValue(s: string): (r: real)
    requires AllDigits(s)
    ensures 0.0 <= r
  {
    NatValue(s) as real / Pow10(|s|) as real
  }

  /** The decimal rendering of `n`, without leading zeros ("0" for zero). */
  function NatToString(n: nat): (s: string)
    ensures s != [] && AllDigits(s)
    ensures '.' !in s
  {
    if n < 10 then [DigitChar(n)] else NatToString(n / 10) + [DigitChar(n % 10)]
  }

  lemma {:induction false} NatValueOfNatToString(n: nat)
    ensures NatValue(NatToString(n)) == n
  {
    var s := NatToString(n);
    if n >= 10 {
      assert s[..|s| - 1] == NatToString(n / 10);
      NatValueOfNatToString(n / 10);
    }
  }

  /** Index of the first '.', or |s| when there is none. */
  function DotIndex(s: string): (d: nat)
    ensures d <= |s|
    ensures forall k :: 0 <= k < d ==> s[k] != '.'
    ensures d < |s| ==> s[d] == '.'
  {
    if s == [] || s[0] == '.' then 0 else 1 + DotIndex(s[1..])
  }

  /** Text of the shape `\d*\.?\d*`: digits, at most one '.', digits. */
  predicate IsDecimalText(s: string) {
    var d := DotIndex(s);
    AllDigits(s[..d]) && (d < |s| ==> AllDigits(s[d + 1..]))
  }

  /** The exact value of decimal text: "12.5" is 12.5, "7." is 7, ".5" is 0.5. */
  function DecimalValue(s: string): (r: real)
    requires IsDecimalText(s)
    ensures 0.0 <= r
  {
    var d := DotIndex(s);
    DigitsValue(s[..d], if d < |s| then s[d + 1..] else "")
  }

  /** `whole.fraction` for two runs of plain digits. */
  function DigitsValue(whole: string, fraction: string): (r: real)
    requires AllDigits(whole) && AllDigits(fraction)
    ensures 0.0 <= r
  {
    NatValue(whole) as real + FractionValue(fraction)
  }

  lemma DigitsValueOfWhole(whole: string)
    requires AllDigits(whole)
    ensures DigitsValue(whole, "") == NatValue(whole) as real
  {
  }

  /** Digits then the rest: the first '.' is the first '.' of the rest. */
  lemma {:induction false} DotIndexAfterDigits(a: string, b: string)
    requires AllDigits(a)
    ensures DotIndex(a + b) == |a| + DotIndex(b)
  {
    if a == [] {
      assert a + b == b;
    } else {
      assert (a + b)[0] == a[0] && IsDigit(a[0]);
      assert (a + b)[1..] == a[1..] + b;
      assert AllDigits(a[1..]);
      DotIndexAfterDigits(a[1..], b);
    }
  }

  /** In `a.b` with `a` all digits, the first '.' is the one after `a`. */
  lemma DotIndexOfDotted(s: string, a: string, b: string)
    requires AllDigits(a) && s == a + "." + b
    ensures DotIndex(s) == |a|
  {
    var rest := "." + b;
    assert s == a + rest;
    assert DotIndex(rest) == 0;
    DotIndexAfterDigits(a, rest);
  }

  /** `\d*.\d*` is decimal text, with its '.' right after the first digits. */
  lemma DecimalTextWithDot(a: string, b: string)
    requires AllDigits(a) && AllDigits(b)
    ensures IsDecimalText(a + "." + b) && DotIndex(a + "." + b) == |a|
  {
    var s := a + "." + b;
    DotIndexOfDotted(s, a, b);
    assert s[..|a|] == a;
    assert s[|a| + 1..] == b;
  }

  /** `\d*` is decimal text without a '.'. */
  lemma DecimalTextOfDigits(a: string)
    requires AllDigits(a)
    ensures IsDecimalText(a) && DotIndex(a) == |a|
  {
    DotIndexAfterDigits(a, "");
    assert a + "" == a;
    assert a[..|a|] == a;
  }

  /** `\d*` spells the natural number its digits give. */
  lemma DecimalValueOfDigits(a: string)
    requires AllDigits(a)
    ensures IsDecimalText(a) && DecimalValue(a) == NatValue(a) as real
  {
    DecimalTextOfDigits(a);
    assert a[..|a|] == a;
    DigitsValueOfWhole(a);
  }
}
